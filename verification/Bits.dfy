/** Powers of two, trailing zeros and bit counts: what lfs_npw2, lfs_ctz and lfs_popc compute. */
module Bits {
  import opened Arith

  function Pow2(k: nat): (r: nat)
    ensures r > 0
  {
    if k == 0 then 1 else 2 * Pow2(k - 1)
  }

  /** lfs_ctz: the number of trailing zero bits. */
  function Ctz(n: nat): nat
    requires n > 0
  {
    if n % 2 == 1 then 0 else 1 + Ctz(n / 2)
  }

  /** lfs_popc: the number of one bits. */
  function Popc(n: nat): nat {
    if n == 0 then 0 else n % 2 + Popc(n / 2)
  }

  /** The number of significant bits. */
  function BitLen(n: nat): nat {
    if n == 0 then 0 else 1 + BitLen(n / 2)
  }

  /** The meaning of lfs_npw2: the smallest r with 2^r >= a. */
  function Npw2(a: nat): nat
    requires a > 0
  {
    BitLen(a - 1)
  }

  lemma {:induction false} BitLenBounds(n: nat)
    requires n > 0
    ensures Pow2(BitLen(n) - 1) <= n < Pow2(BitLen(n))
  {
    if n > 1 {
      BitLenBounds(n / 2);
    }
  }

  lemma {:induction false} Pow2Monotonic(j: nat, k: nat)
    requires j <= k
    ensures Pow2(j) <= Pow2(k)
  {
    if j < k {
      Pow2Monotonic(j, k - 1);
    }
  }

  lemma {:induction false} BitLenMonotonic(m: nat, n: nat)
    requires m <= n
    ensures BitLen(m) <= BitLen(n)
  {
    if m > 0 {
      BitLenMonotonic(m / 2, n / 2);
    }
  }

  lemma {:induction false} BitLenBelow(n: nat, k: nat)
    requires n < Pow2(k)
    ensures BitLen(n) <= k
  {
    if n > 0 {
      BitLenBelow(n / 2, k - 1);
    }
  }

  /** Npw2 is what its comment says. */
  lemma Npw2IsSmallest(a: nat, r: nat)
    requires a > 0
    ensures Pow2(r) >= a <==> r >= Npw2(a)
  {
    if a == 1 {
    } else {
      BitLenBounds(a - 1);
      if r >= Npw2(a) {
        Pow2Monotonic(Npw2(a), r);
      } else {
        Pow2Monotonic(r, Npw2(a) - 1);
      }
    }
  }

  /** A number is a multiple of 2^ctz, and the quotient is odd. */
  lemma {:induction false} CtzDivides(n: nat)
    requires n > 0
    ensures n >= Pow2(Ctz(n)) && n % Pow2(Ctz(n)) == 0 && (n / Pow2(Ctz(n))) % 2 == 1
  {
    if n % 2 == 0 {
      CtzDivides(n / 2);
      HalfDivides(n / 2, Pow2(Ctz(n / 2)));
    }
  }

  lemma HalfDivides(m: nat, d: nat)
    requires d > 0 && m % d == 0
    ensures (2 * m) % (2 * d) == 0 && (2 * m) / (2 * d) == m / d
  {
    var q := m / d;
    assert m == d * q;
    assert 2 * m == (2 * d) * q + 0;
    DivisionIsUnique(2 * m, 2 * d, q, 0);
  }

  /** Counting up by one clears the trailing ones and sets the bit above them. */
  lemma {:induction false} PopcSuccessor(n: nat)
    ensures Popc(n + 1) + Ctz(n + 1) == Popc(n) + 1
  {
    if n % 2 == 1 {
      PopcSuccessor(n / 2);
      assert (n + 1) / 2 == n / 2 + 1;
    } else {
      assert (n + 1) / 2 == n / 2;
    }
  }

  lemma {:induction false} PopcBelow(n: nat, k: nat)
    requires n + 1 < Pow2(k)
    ensures Popc(n) < k
  {
    if k == 0 {
    } else if n == 0 {
      assert Popc(0) == 0;
    } else if n % 2 == 1 {
      PopcBelow(n / 2, k - 1);
    } else {
      PopcAtMost(n / 2, k - 1);
    }
  }

  lemma {:induction false} PopcAtMost(n: nat, k: nat)
    requires n < Pow2(k)
    ensures Popc(n) <= k
  {
    if n > 0 {
      PopcAtMost(n / 2, k - 1);
    }
  }

  /** Taking the lowest set bit away leaves more trailing zeros. */
  lemma {:induction false} CtzGrows(n: nat)
    requires n > 0 && n > Pow2(Ctz(n))
    ensures Ctz(n - Pow2(Ctz(n))) > Ctz(n)
  {
    if n % 2 == 0 {
      var c := Ctz(n / 2);
      assert n == 2 * (n / 2) && n - Pow2(c + 1) == 2 * (n / 2 - Pow2(c));
      CtzGrows(n / 2);
      CtzDouble(n / 2 - Pow2(c));
    }
  }

  lemma CtzDouble(m: nat)
    requires m > 0
    ensures Ctz(2 * m) == 1 + Ctz(m)
  {
    assert (2 * m) / 2 == m;
  }

  /** Taking a smaller power of two away leaves at least that many trailing zeros. */
  lemma {:induction false} CtzAfter(n: nat, k: nat)
    requires n > Pow2(k) && k <= Ctz(n)
    ensures Ctz(n - Pow2(k)) >= k
    decreases k
  {
    if k > 0 {
      assert n == 2 * (n / 2) && n - Pow2(k) == 2 * (n / 2 - Pow2(k - 1));
      CtzAfter(n / 2, k - 1);
      CtzDouble(n / 2 - Pow2(k - 1));
    }
  }

  /** One line of the portable lfs_npw2: if the upper half is not empty, count the lower half and drop it. */
  method Narrow(a: nat, r: nat, k: nat, half: nat) returns (a': nat, r': nat)
    requires half == Pow2(k) && a < half * half
    ensures r' + BitLen(a') == r + BitLen(a) && a' < half && (a' == 0 ==> a == 0)
  {
    if a > half - 1 {
      Shifted(a, k);
      Quotient(a, half);
      a', r' := a / half, r + k;
    } else {
      a', r' := a, r;
    }
  }

  /** The portable body of lfs_npw2: right from 2 on, but 1 for 1 and 32 for 0. */
  method PortableNpw2(a: nat) returns (r: nat)
    requires a < 0x1_0000_0000
    ensures r == if a >= 2 then Npw2(a) else if a == 1 then 1 else 32
  {
    hide BitLen, Pow2;
    PowersOfTwo();
    var x := if a == 0 then 0xffff_ffff else a - 1;
    ghost var n := x;
    r := 0;
    x, r := Narrow(x, r, 16, 0x1_0000);
    x, r := Narrow(x, r, 8, 0x100);
    x, r := Narrow(x, r, 4, 0x10);
    x, r := Narrow(x, r, 2, 4);
    BelowFour(x);
    AllOnes();
    NoBits();
    r := r + x / 2 + 1;
  }

  lemma NoBits()
    ensures BitLen(0) == 0
  {
  }

  lemma Quotient(a: nat, d: nat)
    requires d > 0 && a < d * d
    ensures a / d < d
  {
    assert a == d * (a / d) + a % d;
    SmallMultiple(d, a / d - d + 1);
  }

  lemma BelowFour(x: nat)
    requires x < 4
    ensures x > 0 ==> BitLen(x) == x / 2 + 1
  {
  }

  lemma {:induction false} Shifted(n: nat, k: nat)
    requires n >= Pow2(k)
    ensures n / Pow2(k) > 0 && BitLen(n) == k + BitLen(n / Pow2(k))
    decreases k
  {
    if k > 0 {
      Shifted(n / 2, k - 1);
      DivDiv(n, Pow2(k - 1));
    }
  }

  lemma PowersOfTwo()
    ensures Pow2(2) == 4 && Pow2(4) == 0x10 && Pow2(8) == 0x100 && Pow2(16) == 0x1_0000
    ensures Pow2(25) == 0x200_0000 && Pow2(26) == 0x400_0000 && Pow2(31) == 0x8000_0000 && Pow2(32) == 0x1_0000_0000
  {
    assert Pow2(4) == 16;
    assert Pow2(8) == 256;
    assert Pow2(12) == 4096;
    assert Pow2(16) == 65536;
    assert Pow2(20) == 1048576;
    assert Pow2(24) == 16777216;
    assert Pow2(28) == 268435456;
  }

  lemma DivDiv(n: nat, d: nat)
    requires d > 0
    ensures n / (2 * d) == (n / 2) / d
  {
    var q := (n / 2) / d;
    var r := (n / 2) % d;
    assert n / 2 == d * q + r;
    assert n == (2 * d) * q + (2 * r + n % 2);
    DivisionIsUnique(n, 2 * d, q, 2 * r + n % 2);
  }

  lemma {:induction false} BitLenIs(n: nat, k: nat)
    requires k >= 1 && Pow2(k - 1) <= n < Pow2(k)
    ensures BitLen(n) == k
  {
    if k > 1 {
      BitLenIs(n / 2, k - 1);
    }
  }

  lemma AllOnes()
    ensures BitLen(0xffff_ffff) == 32
  {
    PowersOfTwo();
    BitLenIs(0xffff_ffff, 32);
  }
}
