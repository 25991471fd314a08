/** Big-endian integers as sequences of bytes (sink_write_u32 and friends of src/util/io_base.c). */
module BigEndian {
  import opened Samples
  import Bits

  /** The n low bytes of v, most significant first. */
  function ToBytes(v: nat, n: nat): (r: seq<Byte>)
    ensures |r| == n
  {
    if n == 0 then [] else ToBytes(v / 256, n - 1) + [v % 256]
  }

  function FromBytes(b: seq<Byte>): nat {
    if b == [] then 0 else FromBytes(b[..|b| - 1]) * 256 + b[|b| - 1]
  }

  function Pow256(n: nat): nat {
    if n == 0 then 1 else 256 * Pow256(n - 1)
  }

  lemma {:induction false} ToFromBytes(v: nat, n: nat)
    requires v < Pow256(n)
    ensures FromBytes(ToBytes(v, n)) == v
  {
    if n > 0 {
      ToFromBytes(v / 256, n - 1);
      assert ToBytes(v, n)[..n - 1] == ToBytes(v / 256, n - 1);
    }
  }

  lemma Pow256Positive(n: nat)
    ensures Pow256(n) > 0
  {
  }

  /** The most significant byte comes first. */
  lemma {:induction false} ByteAt(v: nat, n: nat, i: nat)
    requires i < n
    ensures Pow256(n - 1 - i) > 0 && ToBytes(v, n)[i] == v / Pow256(n - 1 - i) % 256
  {
    Pow256Positive(n - 1 - i);
    if i < n - 1 {
      ByteAt(v / 256, n - 1, i);
      Pow256Positive(n - 2 - i);
      DivideTwice(v, Pow256(n - 2 - i));
      assert ToBytes(v, n)[i] == ToBytes(v / 256, n - 1)[i];
    }
  }

  lemma DivideTwice(v: nat, p: nat)
    requires p > 0
    ensures v / (256 * p) == v / 256 / p
  {
    var q := v / 256;
    var k, r := q / p, q % p;
    assert q == k * p + r;
    var rest := 256 * r + v % 256;
    assert v == k * (256 * p) + rest by { assert k * (256 * p) == 256 * (k * p); }
    assert 0 <= rest < 256 * p;
    Bits.RemainderIs(v, 256 * p, k, rest);
  }

  /** Four bytes as a 32-bit number. */
  function Word(b: seq<Byte>): nat
    requires |b| == 4
  {
    b[0] as nat * 0x100_0000 + b[1] as nat * 0x1_0000 + b[2] as nat * 0x100 + b[3] as nat
  }

  lemma WordIs(b: seq<Byte>)
    requires |b| == 4
    ensures FromBytes(b) == Word(b)
  {
    assert b[..3][..2] == b[..2] && b[..2][..1] == b[..1] && b[..1][..0] == [];
    assert FromBytes(b[..1]) == b[0];
    assert FromBytes(b[..2]) == b[0] as nat * 256 + b[1];
    assert FromBytes(b[..3]) == (b[0] as nat * 256 + b[1]) * 256 + b[2];
  }

  lemma LongWordIs(b: seq<Byte>)
    requires |b| == 8
    ensures FromBytes(b) == Word(b[..4]) * 0x1_0000_0000 + Word(b[4..])
  {
    WordIs(b[..4]);
    assert b[..7][..6] == b[..6] && b[..6][..5] == b[..5] && b[..5][..4] == b[..4];
    assert FromBytes(b[..5]) == FromBytes(b[..4]) * 256 + b[4];
    assert FromBytes(b[..6]) == FromBytes(b[..5]) * 256 + b[5];
    assert FromBytes(b[..7]) == FromBytes(b[..6]) * 256 + b[6];
  }

  lemma PowersOf256()
    ensures Pow256(4) == 0x1_0000_0000 && Pow256(8) == 0x1_0000_0000_0000_0000
  {
    assert Pow256(2) == 65536;
    assert Pow256(3) == 256 * 65536;
    assert Pow256(5) == 256 * Pow256(4);
    assert Pow256(6) == 256 * Pow256(5);
    assert Pow256(7) == 256 * Pow256(6);
  }
}
