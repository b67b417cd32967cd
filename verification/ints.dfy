/** Fixed-width unsigned integers of the C++ source, as ranges of `int`.
    Arithmetic on them is unbounded; wrap-around is written out where the
    source relies on it. */
module Ints {

  const TWO_16: nat := 0x1_0000
  const TWO_64: nat := 0x1_0000_0000_0000_0000

  type uint8 = x: int | 0 <= x < 0x100
  type uint16 = x: int | 0 <= x < 0x1_0000
  type uint64 = x: int | 0 <= x < 0x1_0000_0000_0000_0000

  /** A strictly positive count (bytes per cell, magnification). */
  type pos = x: int | 1 <= x witness 1

  /** `a + b` computed in uint64, i.e. modulo 2^64. */
  function AddU64(a: uint64, b: uint64): (r: uint64)
    ensures a + b < TWO_64 ==> r == a + b
    ensures a + b >= TWO_64 ==> r == a + b - TWO_64
  {
    (a + b) % TWO_64
  }

  /** Adding into a wrapped accumulator keeps it congruent to the exact sum. */
  lemma AddU64Congruent(exact: int, acc: uint64, b: uint64)
    requires exact >= 0
    requires acc == exact % TWO_64
    ensures AddU64(acc, b) == (exact + b) % TWO_64
  {
    var q := exact / TWO_64;
    assert exact == q * TWO_64 + acc;
    assert exact + b == q * TWO_64 + (acc + b);
    if acc + b < TWO_64 {
      assert (exact + b) % TWO_64 == acc + b;
    } else {
      assert exact + b == (q + 1) * TWO_64 + (acc + b - TWO_64);
      assert (exact + b) % TWO_64 == acc + b - TWO_64;
    }
  }

  lemma MulMonotone(a: int, b: int, d: nat)
    ensures a <= b ==> d * a <= d * b
  {
    if a <= b {
      var e := b - a;
      assert d * b == d * a + d * e;
    }
  }

  lemma DivDecompose(z: nat, d: pos)
    ensures d * (z / d) <= z < d * (z / d) + d
  {
    assert z == d * (z / d) + z % d;
  }

  /** A multiple of `d` not above `z` has its factor at most `z / d`. */
  lemma BelowQuotient(z: nat, q: nat, d: pos)
    requires d * q <= z
    ensures q <= z / d
  {
    var r := z / d;
    DivDecompose(z, d);
    MulMonotone(r + 1, q, d);
    assert d * (r + 1) == d * r + d;
  }

  lemma DivMonotone(x: nat, y: nat, d: pos)
    requires x <= y
    ensures x / d <= y / d
  {
    DivDecompose(x, d);
    BelowQuotient(y, x / d, d);
  }

  lemma Distributes(d: int, a: int, b: int)
    ensures d * (a + b) == d * a + d * b
  {
  }

  lemma DivSum(x: nat, y: nat, d: pos)
    ensures x / d + y / d <= (x + y) / d
  {
    var qx, qy := x / d, y / d;
    DivDecompose(x, d);
    DivDecompose(y, d);
    Distributes(d, qx, qy);
    BelowQuotient(x + y, qx + qy, d);
  }
}
