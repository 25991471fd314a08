/** Timestamp conversion between time scales: rescale_u64 of src/util/utils.c. */
module TimeScale {

  const TWO32 := 0x1_0000_0000
  const TWO64 := 0x1_0000_0000_0000_0000

  /** Unsigned 32-bit and 64-bit arithmetic. */
  function Wrap32(x: int): (r: nat)
    ensures r < TWO32
  {
    x % 0x1_0000_0000
  }

  function Wrap64(x: int): (r: nat)
    ensures r < TWO64
  {
    x % 0x1_0000_0000_0000_0000
  }

  /** u * newScale / oldScale rounded to the nearest integer, halves up. */
  function Nearest(u: nat, newScale: nat, oldScale: nat): nat
    requires oldScale > 0
  {
    (u * newScale + oldScale / 2) / oldScale
  }

  /** The two branches of the source; the second avoids the 64-bit overflow of u * newScale. */
  function Rescale(u: nat, newScale: nat, oldScale: nat): nat
    requires oldScale > 0
  {
    if u < TWO32
    then Wrap64((u * newScale + oldScale / 2) / oldScale)
    else Wrap64(u / oldScale * newScale + (u % oldScale * newScale + oldScale / 2) / oldScale)
  }

  lemma AtLeastOneMore(p: nat, q: nat, d: nat)
    ensures p >= q + 1 ==> p * d >= q * d + d
  {
    if p >= q + 1 { assert p * d == (q + 1) * d + (p - q - 1) * d; }
  }

  lemma DivideMonotone(a: nat, b: nat, d: nat)
    requires a <= b && d > 0
    ensures a / d <= b / d
  {
    var p, q := a / d, b / d;
    assert a == p * d + a % d;
    assert b == q * d + b % d;
    AtLeastOneMore(p, q, d);
  }

  /** Adding q whole divisors adds q to the quotient. */
  lemma DivideShift(q: nat, r: nat, d: nat)
    requires d > 0
    ensures (q * d + r) / d == q + r / d
  {
    var x := q * d + r;
    assert r == r / d * d + r % d;
    assert x == (q + r / d) * d + r % d;
    assert x == x / d * d + x % d;
    var k := x / d - (q + r / d);
    assert k * d == r % d - x % d;
    assert k >= 1 ==> k * d >= d;
    assert k <= -1 ==> k * d <= 0 - d;
  }

  /** Both branches compute the same rounded quotient. */
  lemma RescaleIsNearest(u: nat, newScale: nat, oldScale: nat)
    requires oldScale > 0
    ensures Rescale(u, newScale, oldScale) == Wrap64(Nearest(u, newScale, oldScale))
  {
    var q, r := u / oldScale, u % oldScale;
    assert u == q * oldScale + r;
    assert u * newScale + oldScale / 2 == q * newScale * oldScale + (r * newScale + oldScale / 2);
    DivideShift(q * newScale, r * newScale + oldScale / 2, oldScale);
  }

  /** The documented quotient comes out exactly when what the division leaves is less than half the old
      scale. */
  lemma RescaleIsQuotient(u: nat, newScale: nat, oldScale: nat)
    requires oldScale > 0
    ensures Rescale(u, newScale, oldScale) == Wrap64(u * newScale / oldScale)
      <==> u * newScale % oldScale + oldScale / 2 < oldScale
  {
    RescaleIsNearest(u, newScale, oldScale);
    hide Rescale;
    RoundsUp(u * newScale, oldScale);
  }

  lemma RoundsUp(p: nat, d: nat)
    requires d > 0
    ensures (p + d / 2) / d == p / d + if p % d + d / 2 < d then 0 else 1
  {
    var q, r := p / d, p % d;
    assert p == q * d + r;
    DivideShift(q, r + d / 2, d);
    SmallQuotient(r + d / 2, d);
  }

  lemma SmallQuotient(x: nat, d: nat)
    requires d > 0 && x < 2 * d
    ensures x / d == if x < d then 0 else 1
  {
  }

  /** One unit of a scale of 2 is half a unit of a scale of 1: it is documented to become 0 and becomes 1. */
  lemma HalfRoundsUp()
    ensures Rescale(1, 1, 2) == 1 && Wrap64(1 * 1 / 2) == 0
  {
  }

  /** As long as the later result fits 64 bits, rescaling keeps timestamps in order. */
  lemma RescaleMonotone(u: nat, w: nat, newScale: nat, oldScale: nat)
    requires oldScale > 0 && u <= w && Nearest(w, newScale, oldScale) < TWO64
    ensures Rescale(u, newScale, oldScale) <= Rescale(w, newScale, oldScale) == Nearest(w, newScale, oldScale)
  {
    RescaleIsNearest(u, newScale, oldScale);
    RescaleIsNearest(w, newScale, oldScale);
    hide Rescale;
    NearestMonotone(u, w, newScale, oldScale);
  }

  lemma NearestMonotone(u: nat, w: nat, newScale: nat, oldScale: nat)
    requires oldScale > 0 && u <= w
    ensures Nearest(u, newScale, oldScale) <= Nearest(w, newScale, oldScale)
  {
    ProductMonotone(u, w, newScale);
    DivideMonotone(u * newScale + oldScale / 2, w * newScale + oldScale / 2, oldScale);
  }

  lemma ProductMonotone(u: nat, w: nat, n: nat)
    requires u <= w
    ensures u * n <= w * n
  {
  }

  /** The rounding error is at most half a unit of the new scale. */
  lemma NearestError(u: nat, newScale: nat, oldScale: nat)
    requires oldScale > 0
    ensures 2 * (Nearest(u, newScale, oldScale) * oldScale - u * newScale) <= oldScale as int
    ensures 2 * (u * newScale - Nearest(u, newScale, oldScale) * oldScale) <= oldScale as int
  {
    var x := u * newScale + oldScale / 2;
    assert x == x / oldScale * oldScale + x % oldScale;
  }
}
