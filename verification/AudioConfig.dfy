/** The AudioSpecificConfig of ISO/IEC 14496-3 (section 1.6.2.1): printing it from a decoder specific
    info and parsing it back, parser_aac_write_binary_dsis and parser_aac_codec_config of
    src/esparser/parser_aac.c. */
module AudioConfig {
  import opened Bits
  import opened BitIO
  import opened BitFields
  import opened ProgramConfig
  import opened Samples

  const AOT_SBR := 5
  const AOT_AAC_SCALABLE := 6
  const AOT_ER_AAC_LC := 17
  const AOT_ER_AAC_LTP := 19
  const AOT_ER_AAC_SCALABLE := 20
  const AOT_ER_BSAC := 22
  const AOT_ER_AAC_LD := 23
  const AOT_PS := 29
  const SYNC_SBR := 0x2b7
  const SYNC_PS := 0x548

  /** An object type as it is coded: five bits, and six more behind the escape value 31. */
  datatype Aot = Aot(id: nat, ext: nat)

  /** A sampling rate: an index, and the rate itself behind the escape value 15. */
  datatype Rate = Rate(index: nat, hz: nat)

  datatype GaConfig = GaConfig(frameLengthFlag: bool, dependsOnCoreCoder: bool, coreCoderDelay: nat,
    extensionFlag: bool)

  /** Fields that are parsed but never printed. */
  datatype Extra = Extra(layerNr: nat, numOfSubFrame: nat, layerLength: nat, sectionFlag: bool,
                         scalefactorFlag: bool, spectralFlag: bool, extensionFlag3: bool)

  datatype Dsi = Dsi(aot: Aot, fs: Rate, channelConfiguration: nat, channelCount: nat,
                     aot2: Aot, sbrFs: Rate, extensionChannelConfiguration: nat,
                     hasSbr: bool, hasPs: bool, havePsExt: bool, haveSbrExt: bool, extAot: Aot,
                     ga: GaConfig, pce: Pce, extra: Extra)

  const NO_EXTRA := Extra(0, 0, 0, false, false, false, false)

  /** A newly created dsi. */
  const FRESH := Dsi(Aot(0, 0), Rate(0, 0), 0, 0, Aot(0, 0), Rate(0, 0), 0,
                     false, false, false, false, Aot(0, 0), GaConfig(false, false, 0, false), NO_PCE, NO_EXTRA)

  /** parser_aac_get_audio_object_type */
  function ObjectType(a: Aot): nat {
    if a.id == 31 then 32 + a.ext else a.id
  }

  /** Signalling that a decoder without SBR cannot skip: the outer object type is SBR or PS. */
  predicate Hierarchical(d: Dsi) {
    ObjectType(d.aot) == AOT_SBR || ObjectType(d.aot) == AOT_PS
  }

  /** The object type of the core codec. */
  function CoreType(d: Dsi): nat {
    if Hierarchical(d) then ObjectType(d.aot2) else ObjectType(d.aot)
  }

  // -------------------------------------------------------------- printing

  function TypeBits(a: Aot): seq<bool> {
    BitsOf(a.id, 5) + if a.id == 31 then BitsOf(a.ext, 6) else []
  }

  function RateBits(r: Rate): seq<bool> {
    BitsOf(r.index, 4) + if r.index == 15 then BitsOf(r.hz, 24) else []
  }

  function HeadBits(d: Dsi): seq<bool> {
    TypeBits(d.aot) + RateBits(d.fs) + BitsOf(d.channelConfiguration, 4)
  }

  function HierarchicalBits(d: Dsi): seq<bool> {
    if !Hierarchical(d) then []
    else RateBits(d.sbrFs) + TypeBits(d.aot2)
         + if ObjectType(d.aot2) == AOT_ER_BSAC then BitsOf(d.extensionChannelConfiguration, 4) else []
  }

  function GaBits(g: GaConfig): seq<bool> {
    FlagBits(g.frameLengthFlag) + FlagBits(g.dependsOnCoreCoder)
    + (if g.dependsOnCoreCoder then BitsOf(g.coreCoderDelay, 14) else [])
    + FlagBits(g.extensionFlag)
  }

  /** The extension a decoder without SBR can skip is printed. */
  predicate SyncPrinted(d: Dsi) {
    !Hierarchical(d) && d.haveSbrExt
  }

  function SbrBits(d: Dsi): seq<bool> {
    FlagBits(d.hasSbr) + if d.hasSbr then RateBits(d.sbrFs) else []
  }

  function PsBits(d: Dsi): seq<bool> {
    if d.havePsExt then BitsOf(SYNC_PS, 11) + FlagBits(d.hasPs) else []
  }

  function ExtensionBits(d: Dsi): seq<bool> {
    if ObjectType(d.extAot) == AOT_SBR then SbrBits(d) + PsBits(d)
    else if ObjectType(d.extAot) == AOT_ER_BSAC then SbrBits(d) + BitsOf(d.extensionChannelConfiguration, 4)
    else []
  }

  function SyncBits(d: Dsi): seq<bool> {
    if SyncPrinted(d) then BitsOf(SYNC_SBR, 11) + TypeBits(d.extAot) + ExtensionBits(d) else []
  }

  /** Everything in front of the program config element. */
  function CoreBits(d: Dsi): seq<bool> {
    HeadBits(d) + HierarchicalBits(d) + GaBits(d.ga)
  }

  /** The comment bytes of a program config element have to be set before they are printed. */
  predicate Printable(d: Dsi) {
    d.channelConfiguration == 0 ==> CommentSet(d.pce.comment)
  }

  /** The config printed behind what is in the sink; only a program config element looks at that, to
      fill up the byte in front of its comment. */
  function PrintAfter(before: seq<bool>, d: Dsi): seq<bool>
    requires Printable(d)
  {
    Filled((if d.channelConfiguration != 0 then before + CoreBits(d)
            else Filled(before + CoreBits(d) + PceBits(d.pce)) + CommentBits(d.pce.comment)) + SyncBits(d))
  }

  /** The printed config. */
  function Print(d: Dsi): seq<bool>
    requires Printable(d)
  {
    PrintAfter([], d)
  }

  method WriteType(sink: BitSink, a: Aot)
    requires sink.Valid()
    modifies sink
    ensures sink.Valid() && sink.Stream() == old(sink.Stream()) + TypeBits(a)
  {
    hide BitsOf, BitSink.Stream, BitSink.Valid;
    sink.WriteBits(5, a.id);
    if a.id == 31 { sink.WriteBits(6, a.ext); }
  }

  method WriteRate(sink: BitSink, r: Rate)
    requires sink.Valid()
    modifies sink
    ensures sink.Valid() && sink.Stream() == old(sink.Stream()) + RateBits(r)
  {
    hide BitsOf, BitSink.Stream, BitSink.Valid;
    sink.WriteBits(4, r.index);
    if r.index == 15 { sink.WriteBits(24, r.hz); }
  }

  method WriteSbr(sink: BitSink, d: Dsi)
    requires sink.Valid()
    modifies sink
    ensures sink.Valid() && sink.Stream() == old(sink.Stream()) + SbrBits(d)
  {
    hide RateBits, BitsOf, BitSink.Stream;
    sink.WriteBits(1, Bit(d.hasSbr));
    if d.hasSbr { WriteRate(sink, d.sbrFs); }
  }

  method WriteExtension(sink: BitSink, d: Dsi)
    requires sink.Valid()
    modifies sink
    ensures sink.Valid() && sink.Stream() == old(sink.Stream()) + ExtensionBits(d)
  {
    hide SbrBits, BitsOf, BitSink.Stream, BitSink.Valid;
    if ObjectType(d.extAot) == AOT_SBR {
      WriteSbr(sink, d);
      if d.havePsExt {
        sink.WriteBits(11, SYNC_PS);
        sink.WriteBits(1, Bit(d.hasPs));
      }
    }
    if ObjectType(d.extAot) == AOT_ER_BSAC {
      WriteSbr(sink, d);
      sink.WriteBits(4, d.extensionChannelConfiguration);
    }
  }

  method WriteGa(sink: BitSink, g: GaConfig)
    requires sink.Valid()
    modifies sink
    ensures sink.Valid() && sink.Stream() == old(sink.Stream()) + GaBits(g)
  {
    hide BitsOf, BitSink.Stream;
    sink.WriteBits(1, Bit(g.frameLengthFlag));
    sink.WriteBits(1, Bit(g.dependsOnCoreCoder));
    if g.dependsOnCoreCoder { sink.WriteBits(14, g.coreCoderDelay); }
    sink.WriteBits(1, Bit(g.extensionFlag));
  }

  method WriteHead(sink: BitSink, d: Dsi)
    requires sink.Valid()
    modifies sink
    ensures sink.Valid() && sink.Stream() == old(sink.Stream()) + HeadBits(d)
  {
    hide TypeBits, RateBits, BitsOf, BitSink.Stream, BitSink.Valid;
    WriteType(sink, d.aot);
    WriteRate(sink, d.fs);
    sink.WriteBits(4, d.channelConfiguration);
  }

  method WriteHierarchical(sink: BitSink, d: Dsi)
    requires sink.Valid()
    modifies sink
    ensures sink.Valid() && sink.Stream() == old(sink.Stream()) + HierarchicalBits(d)
  {
    hide TypeBits, RateBits, BitsOf, BitSink.Stream, BitSink.Valid;
    if ObjectType(d.aot) == AOT_SBR || ObjectType(d.aot) == AOT_PS {
      WriteRate(sink, d.sbrFs);
      WriteType(sink, d.aot2);
      if ObjectType(d.aot2) == AOT_ER_BSAC { sink.WriteBits(4, d.extensionChannelConfiguration); }
    }
  }

  method WriteSync(sink: BitSink, d: Dsi)
    requires sink.Valid()
    modifies sink
    ensures sink.Valid() && sink.Stream() == old(sink.Stream()) + SyncBits(d)
  {
    hide TypeBits, ExtensionBits, BitsOf, BitSink.Stream, BitSink.Valid;
    if !Hierarchical(d) && d.haveSbrExt {
      sink.WriteBits(11, SYNC_SBR);
      WriteType(sink, d.extAot);
      WriteExtension(sink, d);
    }
  }

  /** parser_aac_write_binary_dsis */
  method WriteBinaryDsis(sink: BitSink, d: Dsi)
    requires sink.Valid() && Printable(d)
    modifies sink
    ensures sink.Valid() && sink.cachedBitNum == 0 && BytesBits(sink.out) == PrintAfter(old(sink.Stream()), d)
  {
    hide HeadBits, HierarchicalBits, GaBits, SyncBits, BitSink.Stream, BitSink.Valid, BytesBits, Filled, PceBits,
      CommentBits;
    ghost var before := sink.Stream();
    WriteHead(sink, d);
    WriteHierarchical(sink, d);
    WriteGa(sink, d.ga);
    assert sink.Stream() == before + CoreBits(d);
    if d.channelConfiguration == 0 { WritePce(sink, d.pce); }
    WriteSync(sink, d);
    sink.Flush();
  }

  // -------------------------------------------------------------- parsing

  function ReadType(r: seq<bool>, was: Aot): (Aot, seq<bool>) {
    var id, r1 := Num(r, 5), Drop(r, 5);
    if id == 31 then (Aot(id, Num(r1, 6)), Drop(r1, 6)) else (Aot(id, was.ext), r1)
  }

  function ReadRate(r: seq<bool>, was: Rate): (Rate, seq<bool>) {
    var index, r1 := Num(r, 4), Drop(r, 4);
    if index == 15 then (Rate(index, Num(r1, 24)), Drop(r1, 24)) else (Rate(index, was.hz), r1)
  }

  function ParseHead(r: seq<bool>, d: Dsi): (Dsi, seq<bool>) {
    var (aot, r1) := ReadType(r, d.aot);
    var (fs, r2) := ReadRate(r1, d.fs);
    (d.(aot := aot, fs := fs, channelConfiguration := Num(r2, 4)), Drop(r2, 4))
  }

  function ParseHierarchical(r: seq<bool>, d: Dsi): (Dsi, seq<bool>) {
    if !Hierarchical(d) then (d, r) else
      var (fs, r1) := ReadRate(r, d.sbrFs);
      var (aot2, r2) := ReadType(r1, d.aot2);
      var d2 := d.(hasSbr := true, hasPs := d.hasPs || d.aot.id == AOT_PS, sbrFs := fs, aot2 := aot2);
      if ObjectType(aot2) == AOT_ER_BSAC
      then (d2.(extensionChannelConfiguration := Num(r2, 4)), Drop(r2, 4)) else (d2, r2)
  }

  /** The core coder delay is cut to eight bits when it is stored. */
  function ParseGa(r: seq<bool>, g: GaConfig): (GaConfig, seq<bool>) {
    var frameLength, r1 := Num(r, 1) == 1, Drop(r, 1);
    var depends, r2 := Num(r1, 1) == 1, Drop(r1, 1);
    var delay, r3 := if depends then Num(r2, 14) % 256 else g.coreCoderDelay, if depends then Drop(r2, 14) else r2;
    (GaConfig(frameLength, depends, delay, Num(r3, 1) == 1), Drop(r3, 1))
  }

  function ParseLayer(r: seq<bool>, core: nat, e: Extra): (Extra, seq<bool>) {
    if core == AOT_AAC_SCALABLE || core == AOT_ER_AAC_SCALABLE
    then (e.(layerNr := Num(r, 3)), Drop(r, 3)) else (e, r)
  }

  function ParseSubFrames(r: seq<bool>, core: nat, e: Extra): (Extra, seq<bool>) {
    if core == AOT_ER_BSAC
    then (e.(numOfSubFrame := Num(r, 5), layerLength := Num(Drop(r, 5), 11)), Drop(Drop(r, 5), 11)) else (e, r)
  }

  predicate HasResilienceFlags(core: nat) {
    core == AOT_ER_AAC_LC || core == AOT_ER_AAC_LTP || core == AOT_ER_AAC_SCALABLE || core == AOT_ER_AAC_LD
  }

  function ParseResilience(r: seq<bool>, core: nat, e: Extra): (Extra, seq<bool>) {
    if HasResilienceFlags(core)
    then (e.(sectionFlag := Num(r, 1) == 1, scalefactorFlag := Num(Drop(r, 1), 1) == 1,
             spectralFlag := Num(Drop(Drop(r, 1), 1), 1) == 1), Drop(Drop(Drop(r, 1), 1), 1))
    else (e, r)
  }

  function ParseExtra(r: seq<bool>, core: nat, extensionFlag: bool, e: Extra): (Extra, seq<bool>) {
    var (e1, r1) := ParseLayer(r, core, e);
    if !extensionFlag then (e1, r1) else
      var (e2, r2) := ParseSubFrames(r1, core, e1);
      var (e3, r3) := ParseResilience(r2, core, e2);
      (e3.(extensionFlag3 := Num(r3, 1) == 1), Drop(r3, 1))
  }

  function ParseSbr(r: seq<bool>, d: Dsi): (Dsi, seq<bool>) {
    var has, r1 := Num(r, 1) == 1, Drop(r, 1);
    if has then var (fs, r2) := ReadRate(r1, d.sbrFs); (d.(hasSbr := has, sbrFs := fs), r2)
    else (d.(hasSbr := has), r1)
  }

  /** End of data is decided by bytes: fewer than eight bits left are padding. */
  function ParsePs(r: seq<bool>, d: Dsi): Dsi {
    if !d.hasSbr || |r| < 8 then d
    else if Num(r, 11) == SYNC_PS then d.(havePsExt := true, hasPs := Num(Drop(r, 11), 1) == 1)
    else d.(havePsExt := true)
  }

  function ParseSync(r: seq<bool>, d: Dsi): Dsi {
    if Hierarchical(d) || |r| < 8 then d else
      var d1 := d.(haveSbrExt := true);
      if Num(r, 11) != SYNC_SBR then d1 else
        var (ext, r1) := ReadType(Drop(r, 11), d.extAot);
        var d2 := d1.(extAot := ext);
        if ObjectType(ext) == AOT_SBR then
          var (d3, r2) := ParseSbr(r1, d2);
          ParsePs(r2, d3)
        else if ObjectType(ext) == AOT_ER_BSAC then
          var (d3, r2) := ParseSbr(r1, d2);
          d3.(extensionChannelConfiguration := Num(r2, 4))
        else d2
  }

  /** The channels: from the program config element or the channel configuration. */
  function ParseChannels(r: seq<bool>, d: Dsi): (Dsi, seq<bool>) {
    if d.channelConfiguration == 0 then
      var (pce, r1) := ParsePce(r, d.pce);
      (d.(pce := pce, channelCount := ChannelCount(pce)), r1)
    else (d.(channelCount := d.channelConfiguration), r)
  }

  /** What stands behind the channels: the fields that are not printed, and the extension. */
  function ParseRest(r: seq<bool>, d: Dsi): Dsi {
    var (extra, r1) := ParseExtra(r, CoreType(d), d.ga.extensionFlag, d.extra);
    ParseSync(r1, d.(extra := extra))
  }

  function Parse(r: seq<bool>, d: Dsi): Dsi {
    var (d1, r1) := ParseHead(r, d);
    var (d2, r2) := ParseHierarchical(r1, d1);
    var (ga, r3) := ParseGa(r2, d2.ga);
    var (d3, r4) := ParseChannels(r3, d2.(ga := ga));
    ParseRest(r4, d3)
  }

  // -------------------------------------------------------------- the parser object

  class AacParser {
    var currDsi: Dsi

    constructor (d: Dsi)
      ensures currDsi == d
    {
      currDsi := d;
    }

    method ReadTypeData(src: BitSource, was: Aot) returns (a: Aot)
      requires src.Valid()
      modifies src
      ensures src.Valid() && (a, src.rest) == ReadType(old(src.rest), was)
    {
      hide Num, BitSource.Valid;
      a := was;
      var id := ReadNum(src, 5);
      a := a.(id := id);
      if id == 31 {
        var ext := ReadNum(src, 6);
        a := a.(ext := ext);
      }
    }

    method ReadSamplingFrequency(src: BitSource, was: Rate) returns (fs: Rate)
      requires src.Valid()
      modifies src
      ensures src.Valid() && (fs, src.rest) == ReadRate(old(src.rest), was)
    {
      hide Num, BitSource.Valid;
      fs := was;
      var index := ReadNum(src, 4);
      fs := fs.(index := index);
      if index == 15 {
        var hz := ReadNum(src, 24);
        fs := fs.(hz := hz);
      }
    }

    method ReadHead(src: BitSource)
      requires src.Valid()
      modifies this, src
      ensures src.Valid() && (currDsi, src.rest) == ParseHead(old(src.rest), old(currDsi))
    {
      hide Num, Drop, ReadType, ReadRate, BitSource.Valid;
      var aot := ReadTypeData(src, currDsi.aot);
      currDsi := currDsi.(aot := aot);
      var fs := ReadSamplingFrequency(src, currDsi.fs);
      currDsi := currDsi.(fs := fs);
      var channels := ReadNum(src, 4);
      currDsi := currDsi.(channelConfiguration := channels);
    }

    method ReadHierarchical(src: BitSource)
      requires src.Valid()
      modifies this, src
      ensures src.Valid() && (currDsi, src.rest) == ParseHierarchical(old(src.rest), old(currDsi))
    {
      hide Num, Drop, ReadType, ReadRate, BitSource.Valid;
      if Hierarchical(currDsi) {
        currDsi := currDsi.(hasSbr := true);
        if currDsi.aot.id == AOT_PS { currDsi := currDsi.(hasPs := true); }
        var fs := ReadSamplingFrequency(src, currDsi.sbrFs);
        currDsi := currDsi.(sbrFs := fs);
        var aot2 := ReadTypeData(src, currDsi.aot2);
        currDsi := currDsi.(aot2 := aot2);
        if ObjectType(aot2) == AOT_ER_BSAC {
          var channels := ReadNum(src, 4);
          currDsi := currDsi.(extensionChannelConfiguration := channels);
        }
      }
    }

    method ReadGa(src: BitSource)
      requires src.Valid()
      modifies this, src
      ensures src.Valid() && (currDsi.ga, src.rest) == ParseGa(old(src.rest), old(currDsi).ga)
      ensures currDsi == old(currDsi).(ga := currDsi.ga)
    {
      hide Num, Drop, BitSource.Valid;
      var ga := currDsi.ga;
      var bit := ReadNum(src, 1);
      ga := ga.(frameLengthFlag := bit == 1);
      bit := ReadNum(src, 1);
      ga := ga.(dependsOnCoreCoder := bit == 1);
      if ga.dependsOnCoreCoder {
        var delay := ReadNum(src, 14);
        ga := ga.(coreCoderDelay := delay % 256);
      }
      bit := ReadNum(src, 1);
      ga := ga.(extensionFlag := bit == 1);
      currDsi := currDsi.(ga := ga);
    }

    method ReadChannels(src: BitSource)
      requires src.Valid()
      modifies this, src
      ensures src.Valid() && (currDsi, src.rest) == ParseChannels(old(src.rest), old(currDsi))
    {
      hide ParsePce, ChannelCount, BitSource.Valid;
      if currDsi.channelConfiguration == 0 {
        var pce, channels := ReadPce(src, currDsi.pce);
        currDsi := currDsi.(pce := pce, channelCount := channels);
      } else {
        currDsi := currDsi.(channelCount := currDsi.channelConfiguration);
      }
    }

    method ReadSubFrames(src: BitSource, core: nat, was: Extra) returns (e: Extra)
      requires src.Valid()
      modifies src
      ensures src.Valid() && (e, src.rest) == ParseSubFrames(old(src.rest), core, was)
    {
      hide Num, Drop, BitSource.Valid;
      e := was;
      if core == AOT_ER_BSAC {
        var frames := ReadNum(src, 5);
        var length := ReadNum(src, 11);
        e := e.(numOfSubFrame := frames, layerLength := length);
      }
    }

    method ReadResilience(src: BitSource, core: nat, was: Extra) returns (e: Extra)
      requires src.Valid()
      modifies src
      ensures src.Valid() && (e, src.rest) == ParseResilience(old(src.rest), core, was)
    {
      hide Num, Drop, BitSource.Valid;
      e := was;
      if HasResilienceFlags(core) {
        var section := ReadNum(src, 1);
        var scalefactor := ReadNum(src, 1);
        var spectral := ReadNum(src, 1);
        e := e.(sectionFlag := section == 1, scalefactorFlag := scalefactor == 1, spectralFlag := spectral == 1);
      }
    }

    method ReadExtra(src: BitSource)
      requires src.Valid()
      modifies this, src
      ensures src.Valid()
      ensures (currDsi.extra, src.rest)
        == ParseExtra(old(src.rest), CoreType(old(currDsi)), old(currDsi).ga.extensionFlag, old(currDsi).extra)
      ensures currDsi == old(currDsi).(extra := currDsi.extra)
    {
      hide Num, Drop, BitSource.Valid, ParseSubFrames, ParseResilience;
      var core, e := CoreType(currDsi), currDsi.extra;
      if core == AOT_AAC_SCALABLE || core == AOT_ER_AAC_SCALABLE {
        var layer := ReadNum(src, 3);
        e := e.(layerNr := layer);
      }
      if currDsi.ga.extensionFlag {
        e := ReadSubFrames(src, core, e);
        e := ReadResilience(src, core, e);
        var bit := ReadNum(src, 1);
        e := e.(extensionFlag3 := bit == 1);
      }
      currDsi := currDsi.(extra := e);
    }

    method ReadSbr(src: BitSource)
      requires src.Valid()
      modifies this, src
      ensures src.Valid() && (currDsi, src.rest) == ParseSbr(old(src.rest), old(currDsi))
    {
      hide Num, Drop, ReadRate, BitSource.Valid;
      var bit := ReadNum(src, 1);
      currDsi := currDsi.(hasSbr := bit == 1);
      if currDsi.hasSbr {
        var fs := ReadSamplingFrequency(src, currDsi.sbrFs);
        currDsi := currDsi.(sbrFs := fs);
      }
    }

    method ReadPs(src: BitSource)
      requires src.Valid()
      modifies this, src
      ensures src.Valid() && currDsi == ParsePs(old(src.rest), old(currDsi))
    {
      hide Num, Drop, BitSource.Valid;
      var eod := src.IsEod();
      if currDsi.hasSbr && !eod {
        currDsi := currDsi.(havePsExt := true);
        var sync := ReadNum(src, 11);
        if sync == SYNC_PS {
          var bit := ReadNum(src, 1);
          currDsi := currDsi.(hasPs := bit == 1);
        }
      }
    }

    method ReadSync(src: BitSource)
      requires src.Valid()
      modifies this, src
      ensures src.Valid() && currDsi == ParseSync(old(src.rest), old(currDsi))
    {
      hide Num, Drop, BitSource.Valid, ReadType, ParseSbr, ParsePs;
      var eod := src.IsEod();
      if !Hierarchical(currDsi) && !eod {
        var sync := ReadNum(src, 11);
        currDsi := currDsi.(haveSbrExt := true);
        if sync == SYNC_SBR {
          var ext := ReadTypeData(src, currDsi.extAot);
          currDsi := currDsi.(extAot := ext);
          if ObjectType(ext) == AOT_SBR {
            ReadSbr(src);
            ReadPs(src);
          }
          if ObjectType(ext) == AOT_ER_BSAC {
            ReadSbr(src);
            var channels := ReadNum(src, 4);
            currDsi := currDsi.(extensionChannelConfiguration := channels);
          }
        }
      }
    }

    /** parser_aac_codec_config into the current dsi. */
    method CodecConfig(data: seq<Byte>)
      modifies this
      ensures currDsi == if data == [] then old(currDsi) else Parse(BytesBits(data), old(currDsi))
    {
      hide ParseHead, ParseHierarchical, ParseGa, ParseChannels, ParseExtra, ParseSync, BytesBits, BitSource.Valid;
      if data == [] { return; }
      var src := new BitSource(data);
      ReadHead(src);
      ReadHierarchical(src);
      ReadGa(src);
      ReadChannels(src);
      ReadExtra(src);
      ReadSync(src);
    }
  }
}
