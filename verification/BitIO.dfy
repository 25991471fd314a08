/** The bit interface on top of a byte interface: sink_write_bits, sink_flush_bits, src_read_bits,
    src_peek_bits, src_skip_bits and src_byte_align of src/util/io_base.c. */
module BitIO {
  import opened Bits
  import opened Samples
  import opened TimeScale

  /** Bits that are not yet a whole byte wait in the low `cachedBitNum` bits of `cachedBits`; what
      stands above them is left over from earlier bytes. */
  class BitSink {
    var out: seq<Byte>
    var cachedBits: nat
    var cachedBitNum: nat

    ghost predicate Valid()
      reads this
    {
      cachedBitNum < 8
    }

    /** Everything written so far. */
    ghost function Stream(): seq<bool>
      reads this
    {
      BytesBits(out) + BitsOf(cachedBits, cachedBitNum)
    }

    constructor ()
      ensures Valid() && Stream() == [] && out == []
    {
      out, cachedBits, cachedBitNum := [], 0, 0;
    }

    /** The byte in the low eight cached bits goes out. */
    method PutByte()
      requires cachedBitNum == 8
      modifies this
      ensures Stream() == old(Stream()) && cachedBitNum == 0
    {
      SmallPowers();
      LowBits(cachedBits, 8, 8);
      BitsConcat(out, [cachedBits % 256]);
      assert BytesBits([cachedBits % 256]) == BitsOf(cachedBits % 256, 8);
      out := out + [cachedBits % 256];
      cachedBitNum := 0;
    }

    /** Shifts the n low bits of v into the cache, in 32-bit arithmetic. */
    method ShiftBits(v: nat, n: nat)
      requires cachedBitNum + n <= 8
      modifies this
      ensures Stream() == old(Stream()) + BitsOf(v, n)
      ensures cachedBitNum == old(cachedBitNum) + n && out == old(out)
    {
      hide BytesBits, BitsOf;
      SmallPowers();
      hide Pow2;
      ShiftIn(cachedBits, cachedBitNum, v, n);
      LowBits(cachedBits * Pow2(n) + v % Pow2(n), cachedBitNum + n, 32);
      cachedBits := Wrap32(cachedBits * Pow2(n) + v % Pow2(n));
      cachedBitNum := cachedBitNum + n;
    }

    /** sink_write_bits; a width above 32 would shift by more than the value has bits. */
    method WriteBits(bitNum: nat, val: nat)
      requires Valid() && bitNum <= 32
      modifies this
      ensures Valid() && Stream() == old(Stream()) + BitsOf(val, bitNum)
    {
      hide BytesBits, Shr, BitsOf, BitSink.Stream;
      var left: nat := bitNum;
      while true
        invariant cachedBitNum < 8 && left <= bitNum
        invariant Stream() + BitsOf(val, left) == old(Stream()) + BitsOf(val, bitNum)
        decreases left
      {
        ghost var before := Stream();
        if cachedBitNum + left <= 8 {
          ShiftBits(val, left);
          if cachedBitNum == 8 { PutByte(); }
          return;
        }
        var n := 8 - cachedBitNum;
        SplitBits(val, n, left - n);
        ShiftBits(Shr(val, left - n), n);
        left := left - n;
        PutByte();
        assert before + BitsOf(val, left + n) == before + BitsOf(Shr(val, left), n) + BitsOf(val, left);
      }
    }

    /** sink_flush_bits: fills the last byte with zeros. */
    method Flush()
      requires Valid()
      modifies this
      ensures Valid() && cachedBitNum == 0 && BytesBits(out) == Stream() == Filled(old(Stream()))
    {
      hide BytesBits, BitsOf, Val, Pow2, Zeros;
      assert |Stream()| == 8 * |out| + cachedBitNum;
      if cachedBitNum > 0 {
        ZeroBits(8 - cachedBitNum);
        WriteBits(8 - cachedBitNum, 0);
      } else {
        assert Stream() == Stream() + Zeros(0);
      }
      assert |Stream()| == 8 * |out| + cachedBitNum;
      assert BytesBits(out) == BytesBits(out) + BitsOf(cachedBits, 0);
    }
  }

  lemma {:induction false} ZeroBits(n: nat)
    ensures BitsOf(0, n) == Zeros(n)
  {
    if n > 0 { ZeroBits(n - 1); }
  }

  lemma {:induction false} ZerosAreZero(n: nat)
    ensures Val(Zeros(n)) == 0
  {
    ZeroBits(n);
    ValOfBits(0, n);
  }

  // -------------------------------------------------------------- reading

  /** Stopping half way through a read does not matter. */
  lemma FrontSplit(r: seq<bool>, k: nat, n: nat)
    ensures Front(r, k + n) == Front(r, k) + Front(Drop(r, k), n)
    ensures Drop(r, k + n) == Drop(Drop(r, k), n)
  {
  }

  /** The 32-bit accumulator of a read: later bits come in at the low end. */
  lemma Accumulate(r: seq<bool>, k: nat, n: nat, u: nat, v: nat)
    requires u == Wrap32(Val(Front(r, k))) && v == Val(Front(Drop(r, k), n))
    ensures Wrap32(u * Pow2(n) + v) == Wrap32(Val(Front(r, k + n)))
  {
    hide Front, Drop, Val, Pow2;
    FrontSplit(r, k, n);
    ValConcat(Front(r, k), Front(Drop(r, k), n));
    var x, p := Val(Front(r, k)), Pow2(n);
    var q := x / TWO32;
    assert x == q * TWO32 + u;
    MulOut(q, u, p);
    RemainderShift(u * p + v, q * p);
  }

  lemma MulOut(q: nat, u: nat, p: nat)
    ensures (q * TWO32 + u) * p == q * p * TWO32 + u * p
  {
    assert q * TWO32 * p == q * p * TWO32;
  }

  lemma RemainderShift(w: nat, m: nat)
    ensures Wrap32(m * TWO32 + w) == Wrap32(w)
  {
  }

  /** A byte buffer open for reading.  `rest` is what is left to read. */
  class BitSource {
    const data: seq<Byte>
    var pos: nat
    var cachedBits: nat
    var cachedBitNum: nat
    ghost var rest: seq<bool>

    /** What is left stands in the cache and in the bytes from `pos` on; past the end of the data the
        cache holds zero bits that do not belong to it. */
    ghost predicate Loaded()
      reads this
    {
      && pos <= |data| && cachedBitNum <= 8
      && (rest == BitsOf(cachedBits, cachedBitNum) + BytesBits(data[pos..])
          || (rest == [] && pos == |data| && BitsOf(cachedBits, cachedBitNum) == Zeros(cachedBitNum)))
    }

    ghost predicate Valid()
      reads this
    {
      Loaded() && cachedBitNum < 8
    }

    /** src->set_buffer on a new buffer reader. */
    constructor (data: seq<Byte>)
      ensures Valid() && this.data == data && rest == BytesBits(data)
    {
      this.data := data;
      pos, cachedBits, cachedBitNum, rest := 0, 0, 0, BytesBits(data);
    }

    /** Gives up n of the cached bits. */
    method DropCached(n: nat)
      requires Loaded() && n <= cachedBitNum
      modifies this
      ensures Loaded() && cachedBitNum == old(cachedBitNum) - n && pos == old(pos)
      ensures rest == Drop(old(rest), n)
    {
      hide Val, Pow2, BytesBits, Shr;
      ghost var k: nat := cachedBitNum - n;
      SplitBits(cachedBits, n, k);
      ReadFront(Shr(cachedBits, k), n, BitsOf(cachedBits, k) + BytesBits(data[pos..]));
      cachedBitNum := cachedBitNum - n;
      if rest == [] && BitsOf(cachedBits, n + k) == Zeros(n + k) {
        NoBits(cachedBits, n, k);
        rest := [];
      } else {
        assert rest == BitsOf(Shr(cachedBits, k), n) + (BitsOf(cachedBits, k) + BytesBits(data[pos..]));
        rest := Drop(rest, n);
      }
    }

    /** The value of the next n cached bits. */
    lemma CachedValue(n: nat)
      requires Loaded() && n <= cachedBitNum
      ensures Shr(cachedBits, cachedBitNum - n) % Pow2(n) == Val(Front(rest, n))
    {
      hide Val, Pow2, BytesBits, Shr;
      var k: nat := cachedBitNum - n;
      SplitBits(cachedBits, n, k);
      ReadFront(Shr(cachedBits, k), n, BitsOf(cachedBits, k) + BytesBits(data[pos..]));
      if rest == [] && BitsOf(cachedBits, n + k) == Zeros(n + k) {
        NoBits(cachedBits, n, k);
      } else {
        assert rest == BitsOf(Shr(cachedBits, k), n) + (BitsOf(cachedBits, k) + BytesBits(data[pos..]));
      }
    }

    /** Takes n of the cached bits. */
    method TakeCached(n: nat) returns (v: nat)
      requires Loaded() && n <= cachedBitNum
      modifies this
      ensures Loaded() && cachedBitNum == old(cachedBitNum) - n && pos == old(pos)
      ensures v == Val(Front(old(rest), n)) && rest == Drop(old(rest), n)
    {
      hide Val, Pow2, Shr, Front, Drop, Loaded;
      CachedValue(n);
      v := Shr(cachedBits, cachedBitNum - n) % Pow2(n);
      DropCached(n);
    }

    static lemma NoBits(x: nat, n: nat, k: nat)
      requires BitsOf(x, n + k) == Zeros(n + k)
      ensures Shr(x, k) % Pow2(n) == Val(Front([], n)) && BitsOf(x, k) == Zeros(k)
    {
      hide Val, Pow2, Shr;
      SplitBits(x, n, k);
      assert BitsOf(Shr(x, k), n) == BitsOf(x, n + k)[..n] == Zeros(n);
      assert BitsOf(x, k) == BitsOf(x, n + k)[n..];
      ValOfBits(Shr(x, k), n);
      assert Front([], n) == Zeros(n);
    }

    static lemma NothingRead(r: seq<bool>)
      ensures Wrap32(Val(Front(r, 0))) == 0 && Drop(r, 0) == r
    {
      assert Front(r, 0) == [];
    }

    /** Up to eight bits need no wrapping. */
    static lemma FewBits(r: seq<bool>, n: nat)
      requires n <= 8
      ensures Wrap32(Val(Front(r, n))) == Val(Front(r, n))
    {
      BitsOfVal(Front(r, n));
      SmallPowers();
      hide Pow2, Val, Front;
      Pow2Monotone(n, 8);
    }

    /** Loads the next byte into the empty cache; a zero byte when the data is used up. */
    method LoadByte()
      requires Loaded() && cachedBitNum == 0
      modifies this
      ensures Loaded() && cachedBitNum == 8 && rest == old(rest)
    {
      var u8 := 0;
      if pos < |data| {
        u8 := data[pos];
        BitsConcat([u8], data[pos + 1..]);
        assert [u8] + data[pos + 1..] == data[pos..];
        assert BytesBits([u8]) == BitsOf(u8, 8);
        pos := pos + 1;
      } else {
        ZeroBits(8);
      }
      cachedBits, cachedBitNum := u8, 8;
    }

    /** src_read_bits: the next bits as a number, in 32-bit arithmetic; the data goes on with zeros. */
    method ReadBits(bitNum: nat) returns (u32: nat)
      requires Valid()
      modifies this
      ensures Valid() && u32 == Wrap32(Val(Front(old(rest), bitNum))) && rest == Drop(old(rest), bitNum)
    {
      hide Val, Pow2, BytesBits, Front, Drop, Wrap32, Loaded;
      ghost var r := rest;
      if cachedBitNum >= bitNum {
        FewBits(r, bitNum);
        u32 := TakeCached(bitNum);
        return;
      }
      u32 := 0;
      NothingRead(r);
      var left: nat := bitNum;
      while true
        invariant Valid() && cachedBitNum < left <= bitNum
        invariant u32 == Wrap32(Val(Front(r, bitNum - left))) && rest == Drop(r, bitNum - left)
        decreases left
      {
        ghost var k: nat := bitNum - left;
        if cachedBitNum == 0 { LoadByte(); }
        if cachedBitNum >= left {
          var v := TakeCached(left);
          Accumulate(r, k, left, u32, v);
          FrontSplit(r, k, left);
          u32 := Wrap32(u32 * Pow2(left) + v);
          return;
        }
        var n := cachedBitNum;
        var v := TakeCached(n);
        Accumulate(r, k, n, u32, v);
        FrontSplit(r, k, n);
        u32 := Wrap32(u32 * Pow2(n) + v);
        left := left - n;
      }
    }

    /** src_byte_align: the rest of the current byte is given up. */
    method ByteAlign()
      requires Valid()
      modifies this
      ensures Valid() && pos == old(pos) && cachedBitNum == 0
      ensures rest == Drop(old(rest), old(cachedBitNum)) == BytesBits(data[pos..])
    {
      cachedBitNum := 0;
      rest := BytesBits(data[pos..]);
    }

    /** src->is_EOD: bits that are still cached do not count. */
    method IsEod() returns (eod: bool)
      requires Valid()
      ensures eod <==> |rest| < 8
    {
      eod := pos == |data|;
    }

    /** src->seek: refused outside the buffer. */
    method Seek(offset: int) returns (ok: bool)
      requires Valid() && cachedBitNum == 0
      modifies this
      ensures Valid() && cachedBitNum == 0
      ensures ok <==> 0 <= offset <= |data|
      ensures ok ==> pos == offset && rest == BytesBits(data[offset..])
      ensures !ok ==> pos == old(pos) && rest == old(rest)
    {
      ok := 0 <= offset <= |data|;
      if ok {
        pos := offset;
        rest := BytesBits(data[pos..]);
      }
    }

    /** src_skip_bits: reading and dropping, as long as the skip stays inside the data; otherwise the
        seek is refused and only the odd bits after the current byte are skipped. */
    method SkipBits(bitNum: nat)
      requires Valid()
      modifies this
      ensures Valid()
      ensures bitNum <= old(cachedBitNum) || old(pos) + (bitNum - old(cachedBitNum)) / 8 <= |data| ==>
        rest == Drop(old(rest), bitNum)
      ensures bitNum > old(cachedBitNum) && old(pos) + (bitNum - old(cachedBitNum)) / 8 > |data| ==>
        rest == Drop(BytesBits(data[old(pos)..]), (bitNum - old(cachedBitNum)) % 8)
    {
      hide Val, Pow2, BytesBits, Drop, Front, Loaded;
      if bitNum <= cachedBitNum {
        DropCached(bitNum);
        return;
      }
      var left: nat := bitNum - cachedBitNum;
      FrontSplit(rest, cachedBitNum, left);
      DropCached(cachedBitNum);
      SkipWhole(left);
    }

    /** The part of the skip after the cached bits: whole bytes, then odd bits. */
    method SkipWhole(n: nat)
      requires Loaded() && cachedBitNum == 0
      modifies this
      ensures Valid()
      ensures old(pos) + n / 8 <= |data| ==> rest == Drop(old(rest), n)
      ensures old(pos) + n / 8 > |data| ==> rest == Drop(BytesBits(data[old(pos)..]), n % 8)
    {
      hide Val, Pow2, Drop, Front;
      assert rest == BytesBits(data[pos..]);
      hide BytesBits, Loaded;
      var left, offset := n, n / 8;
      ghost var from, r := pos, rest;
      AllLeft(r);
      FrontSplit(r, 8 * offset, n % 8);
      if offset > 0 {
        var ok := Seek(pos + offset);
        left := n % 8;
        if ok { BytesDropped(data, from, offset); }
      }
      if left > 0 {
        var dropped := ReadBits(left);
      } else {
        AllLeft(rest);
      }
    }

    static lemma AllLeft(r: seq<bool>)
      ensures Drop(r, 0) == r
    {
    }

    static lemma BytesDropped(data: seq<Byte>, from: nat, n: nat)
      requires from + n <= |data|
      ensures Drop(BytesBits(data[from..]), 8 * n) == BytesBits(data[from + n..])
    {
      BitsConcat(data[from..from + n], data[from + n..]);
      assert data[from..from + n] + data[from + n..] == data[from..];
    }

    /** src_following_bit_num: what is left to read; past the end of the data, the zero bits still cached. */
    function Following(): (n: nat)
      requires Loaded()
      reads this
      ensures n == |rest| || (rest == [] && n == cachedBitNum && pos == |data|)
    {
      cachedBitNum + 8 * (|data| - pos)
    }

    /** src_peek_bits: the value that reading would give, here or at a byte offset; nothing is used up. */
    method PeekBits(bitNum: nat, offset: int) returns (u32: nat)
      requires Valid()
      modifies this
      ensures Valid() && pos == old(pos) && rest == old(rest)
      ensures cachedBits == old(cachedBits) && cachedBitNum == old(cachedBitNum)
      ensures bitNum > |rest| && (rest != [] || pos < |data| || bitNum > cachedBitNum) ==> u32 == 0xFFFF_FFFF
      ensures bitNum <= |rest| || (rest == [] && pos == |data| && bitNum <= cachedBitNum) ==>
        var from := if 0 <= pos + offset <= |data| then pos + offset else pos;
        u32 == Wrap32(Val(Front(if offset == 0 then rest else BytesBits(data[from..]), bitNum)))
    {
      hide Val, Pow2, Front, Drop, Wrap32, BytesBits, BitsOf;
      var posCur, bits, num := pos, cachedBits, cachedBitNum;
      ghost var r := rest;
      if bitNum > Following() { return TWO32 - 1; }
      if offset != 0 {
        cachedBitNum := 0;
        rest := BytesBits(data[pos..]);
        var ok := Seek(pos + offset);
      }
      u32 := ReadBits(bitNum);
      pos, cachedBits, cachedBitNum, rest := posCur, bits, num, r;
    }
  }

  // -------------------------------------------------------------- whole runs

  datatype Field = Field(width: nat, value: nat)

  ghost predicate Widths(fs: seq<Field>) {
    forall i | 0 <= i < |fs| :: fs[i].width <= 32
  }

  /** The bits of a run of writes. */
  function FieldBits(fs: seq<Field>): seq<bool> {
    if fs == [] then [] else BitsOf(fs[0].value, fs[0].width) + FieldBits(fs[1..])
  }

  /** Any run of writes, from any state of the sink. */
  method WriteAll(sink: BitSink, fs: seq<Field>)
    requires sink.Valid() && Widths(fs)
    modifies sink
    ensures sink.Valid() && sink.Stream() == old(sink.Stream()) + FieldBits(fs)
  {
    var i := 0;
    while i < |fs|
      invariant 0 <= i <= |fs| && sink.Valid()
      invariant sink.Stream() + FieldBits(fs[i..]) == old(sink.Stream()) + FieldBits(fs)
    {
      ghost var before := sink.Stream();
      sink.WriteBits(fs[i].width, fs[i].value);
      assert before + FieldBits(fs[i..]) == sink.Stream() + FieldBits(fs[i + 1..]);
      i := i + 1;
    }
    assert fs[|fs|..] == [];
  }

  /** Reading the same widths back from any state of a source whose next bits are those written:
      every value comes back modulo two to its width, and the source stands behind the last one. */
  method ReadAllBack(src: BitSource, fs: seq<Field>, ghost tail: seq<bool>) returns (values: seq<nat>)
    requires src.Valid() && Widths(fs) && src.rest == FieldBits(fs) + tail
    modifies src
    ensures src.Valid() && src.rest == tail && |values| == |fs|
    ensures forall i | 0 <= i < |fs| :: values[i] == fs[i].value % Pow2(fs[i].width)
  {
    hide BitsOf, Pow2, Val, Front, Drop, Wrap32, BitSource.Valid;
    values := [];
    while |values| < |fs|
      invariant |values| <= |fs| && src.Valid()
      invariant src.rest == FieldBits(fs[|values|..]) + tail
      invariant forall i | 0 <= i < |values| :: values[i] == fs[i].value % Pow2(fs[i].width)
    {
      ghost var f := fs[|values|];
      ghost var more := FieldBits(fs[|values| + 1..]) + tail;
      assert src.rest == BitsOf(f.value, f.width) + more;
      ReadFront(f.value, f.width, more);
      FitsWord(f.value, f.width);
      var v := src.ReadBits(fs[|values|].width);
      values := values + [v];
    }
  }

  lemma FitsWord(v: nat, n: nat)
    requires n <= 32
    ensures Wrap32(v % Pow2(n)) == v % Pow2(n)
  {
    Pow2Monotone(n, 32);
    SmallPowers();
  }

  /** Main result: a run of writes into a fresh sink, flushed and read back with the same widths. */
  method RoundTrip(fs: seq<Field>) returns (values: seq<nat>)
    requires Widths(fs)
    ensures |values| == |fs|
    ensures forall i | 0 <= i < |fs| :: values[i] == fs[i].value % Pow2(fs[i].width)
  {
    hide BytesBits, BitsOf, FieldBits, Pow2, BitSink.Stream;
    var sink := new BitSink();
    WriteAll(sink, fs);
    ghost var written := sink.Stream();
    sink.Flush();
    var src := new BitSource(sink.out);
    values := ReadAllBack(src, fs, Zeros(Padding(written)));
  }
}
