/** Fixed-width fields on the bit interface: what a field reads as, and what was written reads back. */
module BitFields {
  import opened Bits
  import opened BitIO

  /** The next n bits as a number. */
  function Num(r: seq<bool>, n: nat): nat {
    Val(Front(r, n))
  }

  function FlagBits(b: bool): seq<bool> {
    BitsOf(Bit(b), 1)
  }

  /** Numbers of up to 32 bits are read without wrapping. */
  method ReadNum(src: BitSource, n: nat) returns (v: nat)
    requires src.Valid() && n <= 32
    modifies src
    ensures src.Valid() && v == Num(old(src.rest), n) && src.rest == Drop(old(src.rest), n)
  {
    hide BytesBits, Drop, BitSource.Valid, BitsOf;
    BitsOfVal(Front(src.rest, n));
    SmallPowers();
    hide Pow2, Val, Front;
    Pow2Monotone(n, 32);
    v := src.ReadBits(n);
  }

  lemma NumRead(v: nat, n: nat, tail: seq<bool>)
    requires v < Pow2(n)
    ensures Num(BitsOf(v, n) + tail, n) == v && Drop(BitsOf(v, n) + tail, n) == tail
  {
    ReadFront(v, n, tail);
  }

  lemma FieldPowers()
    ensures Pow2(1) == 2 && Pow2(2) == 4 && Pow2(3) == 8 && Pow2(4) == 16 && Pow2(5) == 32 && Pow2(6) == 64
    ensures Pow2(8) == 256 && Pow2(11) == 2048 && Pow2(14) == 0x4000 && Pow2(24) == 0x100_0000
  {
    assert Pow2(3) == 8;
    assert Pow2(5) == 2 * Pow2(4) == 4 * Pow2(3);
    Pow2Add(4, 4);
    Pow2Add(5, 6);
    Pow2Add(11, 3);
    Pow2Add(11, 13);
    Pow2Add(11, 2);
  }

  lemma FlagRead(b: bool, tail: seq<bool>)
    ensures (Num(FlagBits(b) + tail, 1) == 1) == b && Drop(FlagBits(b) + tail, 1) == tail
  {
    FieldPowers();
    hide Pow2;
    NumRead(Bit(b), 1, tail);
  }

  /** Padding reads as zero, and goes on with zeros. */
  lemma ZeroRead(k: nat, n: nat)
    ensures Num(Zeros(k), n) == 0 && Drop(Zeros(k), n) == Zeros(if n <= k then k - n else 0)
  {
    ZerosAreZero(n);
    assert Front(Zeros(k), n) == Zeros(n);
  }
}
