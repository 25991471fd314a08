/** Boxes whose size field is left open and patched when the box is complete: SKIP_SIZE_FIELD and
    write_size_field of src/mp4_muxer.c, on a growing memory buffer (ISO/IEC 14496-12, section 4.2). */
module BoxWriter {
  import opened BigEndian
  import opened IoBuffer
  import opened Options
  import opened Samples
  import opened TimeScale

  /** A box: its four character code, its own fields, and the boxes inside it. */
  datatype Box = Box(code: seq<Byte>, fields: seq<Byte>, children: seq<Box>)

  /** The bytes of a box; the size is cut to 32 bits as the muxer does. */
  function Encode(b: Box): seq<Byte>
    decreases b
  {
    var body := b.code + b.fields + EncodeAll(b.children);
    ToBytes(Wrap32(4 + |body|), 4) + body
  }

  function EncodeAll(bs: seq<Box>): seq<Byte>
    decreases bs
  {
    if bs == [] then [] else Encode(bs[0]) + EncodeAll(bs[1..])
  }

  // -------------------------------------------------------------- writing

  /** A sink that stands at the end of its data. */
  ghost predicate AtEnd(snk: Buffer)
    reads snk
  {
    snk.Valid() && snk.growable && snk.opOffset == snk.dataSize
  }

  method Append(snk: Buffer, bytes: seq<Byte>)
    requires AtEnd(snk)
    modifies snk, snk.buf
    ensures AtEnd(snk) && (snk.buf == old(snk.buf) || fresh(snk.buf))
    ensures snk.Contents() == old(snk.Contents()) + bytes
  {
    if bytes != [] { var n := snk.Write(bytes); }
  }

  /** write_size_field: only the four bytes of the size change, and the position is kept. */
  method WriteSizeField(snk: Buffer, posSize: nat) returns (size: nat)
    requires AtEnd(snk) && posSize + 4 <= snk.opOffset
    modifies snk, snk.buf
    ensures AtEnd(snk) && (snk.buf == old(snk.buf) || fresh(snk.buf))
    ensures size == Wrap32(old(snk.opOffset) - posSize)
    ensures snk.Contents() == old(snk.Contents()[..posSize]) + ToBytes(size, 4) + old(snk.Contents()[posSize + 4..])
  {
    var posCur := snk.opOffset;
    size := Wrap32(posCur - posSize);
    var ok := snk.Seek(posSize, SeekSet);
    var n := snk.Write(ToBytes(size, 4));
    ok := snk.Seek(posCur, SeekSet);
  }

  lemma Patched(before: seq<Byte>, open: seq<Byte>, body: seq<Byte>, size: seq<Byte>)
    requires |open| == 4
    ensures var s := before + open + body; s[..|before|] + size + s[|before| + 4..] == before + size + body
  {
    var s := before + open + body;
    assert s[..|before|] == before;
    assert s[|before| + 4..] == body;
  }

  /** A box and everything in it. */
  method WriteBox(snk: Buffer, b: Box)
    requires AtEnd(snk)
    modifies snk, snk.buf
    ensures AtEnd(snk) && (snk.buf == old(snk.buf) || fresh(snk.buf))
    ensures snk.Contents() == old(snk.Contents()) + Encode(b)
    decreases b, 1
  {
    hide ToBytes, Encode, EncodeAll, Wrap32, Buffer.Valid, Buffer.Contents;
    StandsInside(snk);
    EndIsLength(snk);
    EncodeIs(b);
    hide AtEnd;
    var posSize := snk.opOffset;
    ghost var before, body := snk.Contents(), b.code + b.fields + EncodeAll(b.children);
    Append(snk, ToBytes(0, 4));
    WriteBody(snk, b);
    StandsInside(snk);
    EndIsLength(snk);
    assert snk.Contents() == before + ToBytes(0, 4) + body;
    var size := WriteSizeField(snk, posSize);
    StandsInside(snk);
    Patched(before, ToBytes(0, 4), body, ToBytes(size, 4));
  }

  lemma EndIsLength(snk: Buffer)
    requires AtEnd(snk)
    ensures snk.Valid() && snk.opOffset == |snk.Contents()|
  {
  }

  lemma EncodeIs(b: Box)
    ensures var body := b.code + b.fields + EncodeAll(b.children); Encode(b) == ToBytes(Wrap32(|body| + 4), 4) + body
  {
  }

  method WriteBody(snk: Buffer, b: Box)
    requires AtEnd(snk)
    modifies snk, snk.buf
    ensures AtEnd(snk) && (snk.buf == old(snk.buf) || fresh(snk.buf))
    ensures snk.Contents() == old(snk.Contents()) + (b.code + b.fields + EncodeAll(b.children))
    decreases b, 0
  {
    hide AtEnd, Encode, EncodeAll, Buffer.Valid, Buffer.Contents;
    StandsInside(snk);
    Append(snk, b.code);
    StandsInside(snk);
    Append(snk, b.fields);
    StandsInside(snk);
    WriteBoxes(snk, b.children);
    StandsInside(snk);
  }

  lemma StandsInside(snk: Buffer)
    requires AtEnd(snk)
    ensures snk.Valid()
  {
  }

  method WriteBoxes(snk: Buffer, bs: seq<Box>)
    requires AtEnd(snk)
    modifies snk, snk.buf
    ensures AtEnd(snk) && (snk.buf == old(snk.buf) || fresh(snk.buf))
    ensures snk.Contents() == old(snk.Contents()) + EncodeAll(bs)
    decreases bs
  {
    hide AtEnd, Encode, Buffer.Valid;
    StandsInside(snk);
    if bs != [] {
      WriteBox(snk, bs[0]);
      StandsInside(snk);
      WriteBoxes(snk, bs[1..]);
      StandsInside(snk);
    }
  }

  // -------------------------------------------------------------- parsing

  /** How many bytes of own fields a box of this code has before the boxes inside it; none for a box
      that holds fields only. */
  type Shape = seq<Byte> -> Option<nat>

  /** Splits a byte string into boxes by size and code alone. */
  function ParseAll(bytes: seq<Byte>, shape: Shape): Option<seq<Box>>
    decreases |bytes|, 0
  {
    if bytes == [] then Some([])
    else if |bytes| < 8 then None
    else
      var size := FromBytes(bytes[..4]);
      if size < 8 || |bytes| < size then None else
        var first := ParseBody(bytes[4..8], bytes[8..size], shape);
        var others := ParseAll(bytes[size..], shape);
        if first.None? || others.None? then None else Some([first.value] + others.value)
  }

  function ParseBody(code: seq<Byte>, body: seq<Byte>, shape: Shape): Option<Box>
    decreases |body|, 1
  {
    match shape(code)
    case None => Some(Box(code, body, []))
    case Some(n) =>
      if |body| < n then None else
        var inner := ParseAll(body[n..], shape);
        if inner.None? then None else Some(Box(code, body[..n], inner.value))
  }

  /** The box keeps to the shape of its code, all the way down, and its size fits 32 bits. */
  predicate Conforms(b: Box, shape: Shape)
    decreases b
  {
    && |b.code| == 4 && |Encode(b)| < TWO32
    && (match shape(b.code)
        case None => b.children == []
        case Some(n) => |b.fields| == n)
    && ConformAll(b.children, shape)
  }

  predicate ConformAll(bs: seq<Box>, shape: Shape)
    decreases bs
  {
    bs != [] ==> Conforms(bs[0], shape) && ConformAll(bs[1..], shape)
  }

  /** An encoded box, byte by byte: the big-endian size of all of it, the code, the fields, and the boxes
      inside. */
  lemma EncodeLayout(b: Box)
    requires |b.code| == 4 && |Encode(b)| < 0x1_0000_0000
    ensures var e, n := Encode(b), 8 + |b.fields|;
      && Word(e[..4]) == |e| == n + |EncodeAll(b.children)|
      && e[4..8] == b.code && e[8..n] == b.fields && e[n..] == EncodeAll(b.children)
  {
    hide FromBytes, Encode, EncodeAll;
    Parts(b, []);
    assert Encode(b) + [] == Encode(b);
    WordIs(Encode(b)[..4]);
    var body := b.fields + EncodeAll(b.children);
    assert body[..|b.fields|] == b.fields && body[|b.fields|..] == EncodeAll(b.children);
  }

  /** The parts of an encoded list. */
  lemma Parts(b: Box, more: seq<Byte>)
    requires |b.code| == 4 && |Encode(b)| < TWO32
    ensures var e, body := Encode(b) + more, b.fields + EncodeAll(b.children);
      && |Encode(b)| == 8 + |body| && FromBytes(e[..4]) == |Encode(b)|
      && e[4..8] == b.code && e[8..|Encode(b)|] == body && e[|Encode(b)|..] == more
  {
    hide FromBytes, ToBytes;
    var inside := EncodeAll(b.children);
    assert Encode(b) == ToBytes(Wrap32(4 + |b.code + b.fields + inside|), 4) + (b.code + b.fields + inside);
    assert b.code + b.fields + inside == b.code + (b.fields + inside);
    hide Encode, EncodeAll;
    var size := 8 + |b.fields + inside|;
    SizeFits(size);
    Slices(ToBytes(size, 4), b.code, b.fields + inside, more);
  }

  lemma SizeFits(size: nat)
    requires size < TWO32
    ensures Wrap32(size) == size && FromBytes(ToBytes(size, 4)) == size
  {
    PowersOf256();
    ToFromBytes(size, 4);
  }

  lemma Slices(size: seq<Byte>, code: seq<Byte>, body: seq<Byte>, more: seq<Byte>)
    requires |size| == |code| == 4
    ensures var e := size + (code + body) + more;
      e[..4] == size && e[4..8] == code && e[8..8 + |body|] == body && e[8 + |body|..] == more
  {
  }

  /** Main result: what was written parses, by the patched sizes, into the same boxes. */
  lemma {:induction false} ParseEncoded(bs: seq<Box>, shape: Shape)
    requires ConformAll(bs, shape)
    ensures ParseAll(EncodeAll(bs), shape) == Some(bs)
    decreases bs, 0
  {
    hide Encode, FromBytes;
    if bs != [] {
      var more := EncodeAll(bs[1..]);
      Parts(bs[0], more);
      BodyParsed(bs[0], shape);
      ParseEncoded(bs[1..], shape);
      assert bs == [bs[0]] + bs[1..];
    }
  }

  lemma {:induction false} BodyParsed(b: Box, shape: Shape)
    requires Conforms(b, shape)
    ensures ParseBody(b.code, b.fields + EncodeAll(b.children), shape) == Some(b)
    decreases b, 1
  {
    hide Encode;
    var body := b.fields + EncodeAll(b.children);
    match shape(b.code)
    case None => assert body == b.fields;
    case Some(n) =>
      ParseEncoded(b.children, shape);
      assert body[..n] == b.fields && body[n..] == EncodeAll(b.children);
  }

  /** The same for the writer itself, from an empty buffer. */
  method WriteAndParse(bs: seq<Box>, shape: Shape) returns (snk: Buffer)
    requires ConformAll(bs, shape)
    ensures fresh(snk) && snk.Valid() && ParseAll(snk.Contents(), shape) == Some(bs)
  {
    hide EncodeAll, ParseAll, Conforms, ConformAll;
    snk := new Buffer(0, true);
    WriteBoxes(snk, bs);
    assert snk.Contents() == EncodeAll(bs);
    ParseEncoded(bs, shape);
  }
}
