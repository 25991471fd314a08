/** Numbers and bytes as sequences of bits, most significant bit first. */
module Bits {
  import opened Samples
  import opened TimeScale

  function Pow2(n: nat): (r: nat)
    ensures r > 0
  {
    if n == 0 then 1 else 2 * Pow2(n - 1)
  }

  /** v >> n */
  function Shr(v: nat, n: nat): nat {
    if n == 0 then v else Shr(v / 2, n - 1)
  }

  function Bit(b: bool): nat {
    if b then 1 else 0
  }

  /** The n low bits of v. */
  function BitsOf(v: nat, n: nat): (r: seq<bool>)
    ensures |r| == n
  {
    if n == 0 then [] else BitsOf(v / 2, n - 1) + [v % 2 == 1]
  }

  function Val(bs: seq<bool>): nat {
    if bs == [] then 0 else 2 * Val(bs[..|bs| - 1]) + Bit(bs[|bs| - 1])
  }

  /** The bits of a byte string. */
  function BytesBits(data: seq<Byte>): (r: seq<bool>)
    ensures |r| == 8 * |data|
  {
    if data == [] then [] else BytesBits(data[..|data| - 1]) + BitsOf(data[|data| - 1], 8)
  }

  function Zeros(n: nat): (r: seq<bool>)
    ensures |r| == n && forall i | 0 <= i < n :: !r[i]
  {
    seq(n, _ => false)
  }

  /** The zeros that fill the last byte of a stream. */
  function Padding(bs: seq<bool>): (k: nat)
    ensures k < 8 && (|bs| + k) % 8 == 0
  {
    (8 - |bs| % 8) % 8
  }

  function Filled(bs: seq<bool>): (r: seq<bool>)
    ensures |r| % 8 == 0
  {
    bs + Zeros(Padding(bs))
  }

  /** The first n bits of a stream that goes on with zeros. */
  function Front(bs: seq<bool>, n: nat): (r: seq<bool>)
    ensures |r| == n
  {
    if n <= |bs| then bs[..n] else bs + Zeros(n - |bs|)
  }

  function Drop(bs: seq<bool>, n: nat): (r: seq<bool>)
    ensures |r| == if n <= |bs| then |bs| - n else 0
  {
    if n <= |bs| then bs[n..] else []
  }

  /** Front and rest of a stream, bit by bit. */
  lemma Parts(bs: seq<bool>, n: nat)
    ensures forall i | 0 <= i < n :: Front(bs, n)[i] == (i < |bs| && bs[i])
    ensures forall i | 0 <= i < |bs| - n :: Drop(bs, n)[i] == bs[n + i]
  {
  }

  // -------------------------------------------------------------- powers and remainders

  lemma {:induction false} Pow2Add(a: nat, b: nat)
    ensures Pow2(a + b) == Pow2(a) * Pow2(b)
  {
    if a > 0 {
      Pow2Add(a - 1, b);
      assert Pow2(a + b) == 2 * Pow2(a - 1 + b);
    }
  }

  lemma {:induction false} Pow2Monotone(a: nat, b: nat)
    requires a <= b
    ensures Pow2(a) <= Pow2(b)
  {
    if a < b { Pow2Monotone(a, b - 1); }
  }

  lemma SmallPowers()
    ensures Pow2(1) == 2 && Pow2(8) == 256 && Pow2(32) == 0x1_0000_0000
  {
    assert Pow2(4) == 16;
    Pow2Add(4, 4);
    Pow2Add(8, 8);
    Pow2Add(16, 16);
  }

  lemma HalfOfRemainder(v: nat, p: nat)
    requires p > 0
    ensures v % (2 * p) == 2 * (v / 2 % p) + v % 2
  {
    var q := v / 2;
    var k, r := q / p, q % p;
    assert q == k * p + r;
    var w := 2 * r + v % 2;
    assert v == k * (2 * p) + w by { assert k * (2 * p) == 2 * (k * p); }
    assert 0 <= w < 2 * p;
    RemainderIs(v, 2 * p, k, w);
  }

  lemma RemainderIs(v: nat, d: nat, q: nat, r: nat)
    requires d > 0 && v == q * d + r && r < d
    ensures v / d == q && v % d == r
  {
    assert v == v / d * d + v % d;
    AtLeastOneMore(v / d, q, d);
    AtLeastOneMore(q, v / d, d);
  }

  lemma DivideTwice(v: nat, p: nat)
    requires p > 0
    ensures v / (2 * p) == v / 2 / p
  {
    var q := v / 2;
    var k, r := q / p, q % p;
    assert q == k * p + r;
    assert v == k * (2 * p) + (2 * r + v % 2) by { assert k * (2 * p) == 2 * (k * p); }
    RemainderIs(v, 2 * p, k, 2 * r + v % 2);
  }

  lemma {:induction false} ShiftDivides(v: nat, n: nat)
    ensures Shr(v, n) == v / Pow2(n)
  {
    if n > 0 {
      ShiftDivides(v / 2, n - 1);
      DivideTwice(v, Pow2(n - 1));
    }
  }

  // -------------------------------------------------------------- numbers and bits

  lemma {:induction false} ValOfBits(v: nat, n: nat)
    ensures Val(BitsOf(v, n)) == v % Pow2(n)
  {
    if n > 0 {
      ValOfBits(v / 2, n - 1);
      assert BitsOf(v, n)[..n - 1] == BitsOf(v / 2, n - 1);
      HalfOfRemainder(v, Pow2(n - 1));
    }
  }

  lemma {:induction false} BitsOfVal(bs: seq<bool>)
    ensures BitsOf(Val(bs), |bs|) == bs && Val(bs) < Pow2(|bs|)
  {
    if bs != [] {
      var n := |bs|;
      BitsOfVal(bs[..n - 1]);
      assert Val(bs) / 2 == Val(bs[..n - 1]);
    }
  }

  lemma MoreBits(v: nat, n: nat)
    ensures BitsOf(v, n + 1) == BitsOf(v / 2, n) + [v % 2 == 1]
  {
  }

  lemma FewBits(v: nat)
    ensures BitsOf(v, 1) == [v % 2 == 1] && BitsOf(v, 3) == [v / 4 % 2 == 1, v / 2 % 2 == 1, v % 2 == 1]
  {
    MoreBits(v, 2);
    MoreBits(v / 2, 1);
    MoreBits(v / 4, 0);
    MoreBits(v, 0);
    assert v / 2 / 2 == v / 4;
  }

  lemma FourBits(v: nat)
    ensures BitsOf(v, 4) == [v / 8 % 2 == 1, v / 4 % 2 == 1, v / 2 % 2 == 1, v % 2 == 1]
  {
    hide BitsOf;
    MoreBits(v, 3);
    FewBits(v / 2);
    assert v / 2 / 4 == v / 8 && v / 2 / 2 == v / 4;
  }

  /** The bits of a byte, the most significant one first. */
  lemma EightBits(v: nat)
    ensures BitsOf(v, 8) == [v / 128 % 2 == 1, v / 64 % 2 == 1, v / 32 % 2 == 1, v / 16 % 2 == 1,
                             v / 8 % 2 == 1, v / 4 % 2 == 1, v / 2 % 2 == 1, v % 2 == 1]
  {
    hide BitsOf, Shr;
    SplitBits(v, 4, 4);
    ShiftDivides(v, 4);
    assert Pow2(4) == 16;
    FourBits(v / 16);
    FourBits(v);
    Sixteenth(v);
  }

  lemma Sixteenth(v: nat)
    ensures v / 16 / 8 == v / 128 && v / 16 / 4 == v / 64 && v / 16 / 2 == v / 32
  {
  }

  /** Bit i of a stream of bytes is in byte i / 8, the most significant bit first. */
  lemma {:induction false} StreamBit(data: seq<Byte>, k: nat)
    requires k < |data|
    ensures BytesBits(data)[8 * k..8 * k + 8]
      == [data[k] / 128 % 2 == 1, data[k] / 64 % 2 == 1, data[k] / 32 % 2 == 1, data[k] / 16 % 2 == 1,
          data[k] / 8 % 2 == 1, data[k] / 4 % 2 == 1, data[k] / 2 % 2 == 1, data[k] % 2 == 1]
  {
    hide BitsOf;
    var n := |data| - 1;
    if k < n {
      StreamBit(data[..n], k);
      assert BytesBits(data)[8 * k..8 * k + 8] == BytesBits(data[..n])[8 * k..8 * k + 8];
    } else {
      EightBits(data[k]);
      assert BytesBits(data)[8 * k..8 * k + 8] == BitsOf(data[k], 8);
    }
  }

  /** High bits first: v >> b carries the a bits above the b low ones. */
  lemma {:induction false} SplitBits(v: nat, a: nat, b: nat)
    ensures BitsOf(v, a + b) == BitsOf(Shr(v, b), a) + BitsOf(v, b)
  {
    if b > 0 {
      SplitBits(v / 2, a, b - 1);
      assert BitsOf(v, a + b) == BitsOf(v / 2, a + (b - 1)) + [v % 2 == 1];
    }
  }

  /** Bits above the n low ones do not matter. */
  lemma {:induction false} LowBits(v: nat, n: nat, m: nat)
    requires n <= m
    ensures BitsOf(v % Pow2(m), n) == BitsOf(v, n)
  {
    if n > 0 {
      HalfOfRemainder(v, Pow2(m - 1));
      LowBits(v / 2, n - 1, m - 1);
      assert v % Pow2(m) / 2 == v / 2 % Pow2(m - 1);
    }
  }

  /** Shifting in n bits of v below the bits of x. */
  lemma ShiftIn(x: nat, k: nat, v: nat, n: nat)
    ensures BitsOf(x * Pow2(n) + v % Pow2(n), k + n) == BitsOf(x, k) + BitsOf(v, n)
  {
    var y := x * Pow2(n) + v % Pow2(n);
    RemainderIs(y, Pow2(n), x, v % Pow2(n));
    ShiftDivides(y, n);
    hide Pow2, Shr;
    SplitBits(y, k, n);
    LowBits(y, n, n);
    LowBits(v, n, n);
  }

  lemma {:induction false} ValConcat(a: seq<bool>, b: seq<bool>)
    ensures Val(a + b) == Val(a) * Pow2(|b|) + Val(b)
    decreases |b|
  {
    if b == [] {
      assert a + b == a;
    } else {
      var m := |b| - 1;
      assert (a + b)[..|a + b| - 1] == a + b[..m];
      ValConcat(a, b[..m]);
      assert Val(a) * Pow2(|b|) == 2 * (Val(a) * Pow2(m)) by { Double(Val(a), Pow2(m)); }
    }
  }

  lemma Double(x: nat, p: nat)
    ensures x * (2 * p) == 2 * (x * p)
  {
  }

  lemma {:induction false} BitsConcat(a: seq<Byte>, b: seq<Byte>)
    ensures BytesBits(a + b) == BytesBits(a) + BytesBits(b)
    decreases |b|
  {
    hide BitsOf;
    if b == [] {
      assert a + b == a;
    } else {
      var m := |b| - 1;
      assert (a + b)[..|a + b| - 1] == a + b[..m];
      BitsConcat(a, b[..m]);
    }
  }

  /** Reading a number that was put in front of other bits. */
  lemma ReadFront(v: nat, n: nat, tail: seq<bool>)
    ensures Val(Front(BitsOf(v, n) + tail, n)) == v % Pow2(n)
    ensures Drop(BitsOf(v, n) + tail, n) == tail
  {
    ValOfBits(v, n);
    assert Front(BitsOf(v, n) + tail, n) == BitsOf(v, n);
  }
}
