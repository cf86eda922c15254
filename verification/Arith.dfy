/** Integer division and alignment. */
module Arith {

  lemma SmallMultiple(d: nat, k: int)
    requires d * k < d
    ensures k <= 0
  {
  }

  lemma DivisionIsUnique(a: nat, d: nat, q: nat, r: nat)
    requires d > 0 && a == d * q + r && r < d
    ensures a / d == q && a % d == r
  {
    var k := q - a / d;
    assert d * k == d * q - d * (a / d);
    assert d * -k == d * (a / d) - d * q;
    SmallMultiple(d, k);
    SmallMultiple(d, -k);
  }

  /** An integer remainder, from its equation. */
  lemma Remainder(a: int, n: nat, q: int, r: nat)
    requires n > 0 && a == n * q + r && r < n
    ensures a % n == r
  {
    var k := q - a / n;
    assert a == n * (a / n) + a % n;
    assert n * k == n * q - n * (a / n);
    assert n * -k == n * (a / n) - n * q;
    SmallMultiple(n, k);
    SmallMultiple(n, -k);
  }

  function Min(a: nat, b: nat): nat { if a < b then a else b }

  function Max(a: nat, b: nat): nat { if a > b then a else b }

  /** lfs_aligndown. */
  function AlignDown(a: nat, alignment: nat): (r: nat)
    requires alignment > 0
    ensures r <= a < r + alignment && r % alignment == 0
  {
    DivisionIsUnique(alignment * (a / alignment), alignment, a / alignment, 0);
    a - a % alignment
  }

  /** lfs_alignup. */
  function AlignUp(a: nat, alignment: nat): (r: nat)
    requires alignment > 0
    ensures a <= r < a + alignment && r % alignment == 0
  {
    AlignDown(a + alignment - 1, alignment)
  }

  function Max0(x: int): nat { if x < 0 then 0 else x }

  lemma NoNegative(a: nat, b: nat)
    ensures a * b >= 0
  {
  }
}
