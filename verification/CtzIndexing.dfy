/**
 * Positions in a file: lfs_ctz_index turns an offset into a block of the skip-list and a place in that block. Block
 * n > 0 begins with ctz(n) + 1 pointers, so less than a block of data fits.
 */
module CtzIndexing {
  import opened Arith
  import opened Bits

  newtype uint32 = x: int | 0 <= x < 0x1_0000_0000

  /** How many pointers block n begins with. */
  function Pointers(n: nat): nat { if n == 0 then 0 else Ctz(n) + 1 }

  /** Where the data of block n begins. */
  function Header(n: nat): nat { 4 * Pointers(n) }

  /** How much data the blocks before block n hold. */
  function DataBefore(size: int, n: nat): int {
    if n == 0 then 0 else DataBefore(size, n - 1) + size - Header(n - 1)
  }

  /** An offset lies in the data of block i, at place o of the block. */
  predicate IsPosition(size: int, pos: int, i: nat, o: int) {
    pos == DataBefore(size, i) + o - Header(i) && Header(i) <= o < size
  }

  function PointerSum(n: nat): nat { if n == 0 then 0 else PointerSum(n - 1) + Pointers(n) }

  /** The sum that makes a closed form possible: all the pointers of blocks 1 to n. */
  lemma {:induction false} PointerSumClosed(n: nat)
    ensures PointerSum(n) == 2 * n - Popc(n)
  {
    if n > 0 {
      PointerSumClosed(n - 1);
      PopcSuccessor(n - 1);
    }
  }

  lemma Distribute(i: int, b: int)
    ensures (i + 1) * b == i * b + b
  {
  }

  lemma {:induction false} DataBeforeClosed(size: int, n: nat)
    ensures DataBefore(size, n) - Header(n) == n * (size - 8) + 4 * Popc(n)
  {
    if n > 0 {
      DataBeforeClosed(size, n - 1);
      PopcSuccessor(n - 1);
      Distribute(n - 1, size - 8);
    }
  }

  /** The arithmetic of lfs_ctz_index, without bounds. */
  function FirstGuess(size: int, pos: nat): int
    requires size > 8
  {
    pos / (size - 8)
  }

  function IndexOf(size: int, pos: nat): int
    requires size > 8
  {
    var g := FirstGuess(size, pos);
    if g <= 0 then 0 else (pos - 4 * (Popc(g - 1) + 2)) / (size - 8)
  }

  function OffsetOf(size: int, pos: nat): int
    requires size > 8
  {
    if FirstGuess(size, pos) <= 0 then pos
    else pos - (size - 8) * IndexOf(size, pos) - 4 * Popc(Max0(IndexOf(size, pos)))
  }

  const LIMIT := 0x1_0000_0000

  /** LFS_FILE_MAX. */
  const FILE_MAX := 0x7fff_ffff

  /** Offsets for which a block size leaves room for the pointers: all of 32 bits, or all of a file. */
  predicate InRange(size: int, pos: int) {
    0 <= pos && ((size >= 116 && pos < LIMIT) || (size >= 112 && pos <= FILE_MAX))
  }

  /** Files of 2^32 bytes have fewer than 2^26 blocks. */
  lemma FewBlocks(b: nat, pos: nat, g: nat)
    requires b >= 96 && pos < LIMIT && b * g <= pos
    ensures g < Pow2(26) - 1
    ensures b >= 104 && pos <= FILE_MAX ==> g < Pow2(25) - 1
  {
    PowersOfTwo();
    assert 96 * g <= b * g;
    if b >= 104 {
      assert 104 * g <= b * g;
    }
  }

  lemma FewOnes(size: nat, pos: nat, g: nat)
    requires InRange(size, pos) && (size - 8) * g <= pos
    ensures 16 + 4 * Popc(g) <= size && Popc(g) <= 25
  {
    hide Popc;
    FewBlocks(size - 8, pos, g);
    PopcBelow(g, if size >= 116 then 26 else 25);
  }

  /** The guess corrected by the pointers it implies is the guess or one less. */
  lemma Corrected(b: nat, pos: nat, g: nat, q: nat)
    requires b > 0 && g == pos / b && g >= 1 && q <= b
    ensures (pos - q) / b == (if pos - b * g >= q then g else g - 1) && 0 <= pos - b * g < b && pos >= q
  {
    var r := pos - b * g;
    assert pos == b * g + pos % b;
    assert b * g >= b by { assert b * g == b * (g - 1) + b && b * (g - 1) >= 0; }
    if r >= q {
      DivisionIsUnique(pos - q, b, g, r - q);
    } else {
      assert pos - q == b * (g - 1) + (b + r - q);
      DivisionIsUnique(pos - q, b, g - 1, b + r - q);
    }
  }

  lemma Quotients(b: nat, pos: nat)
    requires b > 0 && pos >= b
    ensures pos / b >= 1 && b * (pos / b) <= pos < b * (pos / b) + b && b * (pos / b - 1) == b * (pos / b) - b
  {
    var k, r := (pos - b) / b, (pos - b) % b;
    assert pos - b == b * k + r;
    Distribute(k, b);
    DivisionIsUnique(pos, b, k + 1, r);
  }

  /** Where the formula ends up. */
  lemma IndexCases(size: nat, pos: nat)
    requires InRange(size, pos) && pos >= size - 8
    ensures var b, g := size - 8, pos / (size - 8);
            && g >= 1 && 0 <= pos - b * g < b && 8 + 4 * Popc(g - 1) <= b
            && IndexOf(size, pos) == if pos - b * g >= 8 + 4 * Popc(g - 1) then g else g - 1
  {
    hide Popc;
    Quotients(size - 8, pos);
    FewOnes(size, pos, pos / (size - 8) - 1);
    Corrected(size - 8, pos, pos / (size - 8), 8 + 4 * Popc(pos / (size - 8) - 1));
  }

  /** The place in block i of an offset, if it lies in that block. */
  function PlaceIn(size: int, pos: int, i: nat): int { pos - (size - 8) * i - 4 * Popc(i) }

  lemma PlaceIsPosition(size: int, pos: int, i: nat)
    ensures IsPosition(size, pos, i, PlaceIn(size, pos, i)) <==> Header(i) <= PlaceIn(size, pos, i) < size
  {
    hide Popc, DataBefore, Header;
    DataBeforeClosed(size, i);
    assert i * (size - 8) == (size - 8) * i;
  }

  /** When the guess was right. */
  lemma GuessPlaced(size: nat, pos: nat, g: nat)
    requires size > 8 && g >= 1 && 8 + 4 * Popc(g - 1) <= pos - (size - 8) * g < size - 8
    ensures Header(g) <= PlaceIn(size, pos, g) < size
  {
    hide Popc, Ctz;
    PopcSuccessor(g - 1);
  }

  /** When the guess was one too many. */
  lemma LowerPlaced(size: nat, pos: nat, g: nat)
    requires InRange(size, pos) && g >= 1 && 0 <= pos - (size - 8) * g < 8 + 4 * Popc(g - 1)
    ensures Header(g - 1) <= PlaceIn(size, pos, g - 1) < size
  {
    hide Popc, Ctz;
    assert (size - 8) * (g - 1) == (size - 8) * g - (size - 8);
    FewOnes(size, pos, g - 1);
    if g >= 2 {
      assert (size - 8) * (g - 2) == (size - 8) * g - 2 * (size - 8);
      PopcSuccessor(g - 2);
      FewOnes(size, pos, g - 2);
    }
  }

  /** lfs_ctz_index is right for every offset in range. */
  lemma IndexIsRight(size: nat, pos: nat)
    requires InRange(size, pos)
    ensures IndexOf(size, pos) >= 0 && IsPosition(size, pos, IndexOf(size, pos), OffsetOf(size, pos))
  {
    if pos < size - 8 {
      DivisionIsUnique(pos, size - 8, 0, pos);
    } else {
      hide Popc, IsPosition, Header;
      IndexCases(size, pos);
      var g, i := pos / (size - 8), IndexOf(size, pos);
      if i == g {
        GuessPlaced(size, pos, g);
      } else {
        LowerPlaced(size, pos, g);
      }
      PlaceIsPosition(size, pos, i);
    }
  }

  /** An offset has only one position. */
  lemma {:induction false} DataGrows(size: nat, i: nat, j: nat)
    requires size >= 108 && i < j < Pow2(26)
    ensures DataBefore(size, i) + size - Header(i) <= DataBefore(size, j)
    decreases j
  {
    if i < j - 1 {
      DataGrows(size, i, j - 1);
      CtzDivides(j - 1);
      CtzSmall(j - 1, 26);
    }
  }

  lemma CtzSmall(n: nat, k: nat)
    requires 0 < n < Pow2(k)
    ensures Ctz(n) < k
  {
    CtzDivides(n);
    if Ctz(n) >= k {
      Pow2Monotonic(k, Ctz(n));
    }
  }

  lemma PositionBounds(size: nat, pos: nat, i: nat, o: int)
    requires size >= 108 && pos < LIMIT && IsPosition(size, pos, i, o)
    ensures i < Pow2(26)
  {
    DataBeforeClosed(size, i);
    assert i * (size - 8) == (size - 8) * i;
    FewBlocks(size - 8, pos, i);
  }

  lemma PositionIsUnique(size: nat, pos: nat, i: nat, o: int, j: nat, p: int)
    requires size >= 108 && pos < LIMIT && IsPosition(size, pos, i, o) && IsPosition(size, pos, j, p)
    ensures i == j && o == p
  {
    PositionBounds(size, pos, i, o);
    PositionBounds(size, pos, j, p);
    if i < j {
      DataGrows(size, i, j);
    } else if j < i {
      DataGrows(size, j, i);
    }
  }

  /** lfs_ctz_index, in 32-bit arithmetic: nothing wraps around. */
  method CtzIndex(blockSize: uint32, off: uint32) returns (i: uint32, o: uint32)
    requires InRange(blockSize as int, off as int)
    ensures IsPosition(blockSize as int, off as int, i as int, o as int)
  {
    hide Popc, IsPosition, DataBefore, Header, IndexOf, PlaceIn;
    IndexIsRight(blockSize as int, off as int);
    OffsetIsPlace(blockSize as int, off as int);
    i := Guess(blockSize, off);
    if i == 0 {
      return 0, off;
    }
    i := IndexAfterGuess(blockSize, off, i);
    o := PlaceOf(blockSize, off, i);
  }

  lemma OffsetIsPlace(size: nat, pos: nat)
    requires size > 8 && IndexOf(size, pos) >= 0
    ensures if pos / (size - 8) == 0 then IndexOf(size, pos) == 0 && OffsetOf(size, pos) == pos
            else OffsetOf(size, pos) == PlaceIn(size, pos, IndexOf(size, pos))
  {
  }

  /** The division that takes no account of pointers. */
  method Guess(blockSize: uint32, off: uint32) returns (i: uint32)
    requires blockSize > 8
    ensures i as int == off as int / (blockSize as int - 8)
  {
    var b := blockSize - 8;
    i := off / b;
  }

  /** The division repeated, less the pointers that the guess implies. */
  method IndexAfterGuess(blockSize: uint32, off: uint32, guess: uint32) returns (i: uint32)
    requires InRange(blockSize as int, off as int) && guess >= 1 && guess as int == off as int / (blockSize as int - 8)
    ensures i as int == IndexOf(blockSize as int, off as int)
  {
    hide Popc;
    AtLeastOneBlock(blockSize as int, off as int);
    IndexCases(blockSize as int, off as int);
    var ones := PopcOf(guess - 1);
    i := (off - 4 * (ones + 2)) / (blockSize - 8);
  }

  method PlaceOf(blockSize: uint32, off: uint32, i: uint32) returns (o: uint32)
    requires InRange(blockSize as int, off as int)
    requires IsPosition(blockSize as int, off as int, i as int, PlaceIn(blockSize as int, off as int, i as int))
    ensures o as int == PlaceIn(blockSize as int, off as int, i as int)
  {
    hide Popc;
    FewOnesOf(blockSize as int, off as int, i as int);
    var ones := PopcOf(i);
    o := off - (blockSize - 8) * i - 4 * ones;
  }

  lemma AtLeastOneBlock(size: nat, pos: nat)
    requires size > 8 && pos / (size - 8) >= 1
    ensures pos >= size - 8
  {
    if pos < size - 8 {
      DivisionIsUnique(pos, size - 8, 0, pos);
    }
  }

  lemma FewOnesOf(size: nat, pos: nat, i: nat)
    requires InRange(size, pos) && IsPosition(size, pos, i, PlaceIn(size, pos, i))
    ensures 0 <= (size - 8) * i && (size - 8) * i + 4 * Popc(i) <= pos
  {
    hide Popc, DataBefore;
    NoNegative(size - 8, i);
  }

  /** lfs_popc, by the builtin. */
  function PopcOf(n: uint32): (r: uint32)
    ensures r as int == Popc(n as int) && r <= 32
  {
    PowersOfTwo();
    PopcAtMost(n as int, 32);
    Popc(n as int) as uint32
  }

  // ---- Small blocks ----

  /** The block sizes that lfs_init lets through. */
  predicate Admitted(size: nat) {
    8 < size && 0xffff_ffff / (size - 8) > 0 && 4 * Npw2(0xffff_ffff / (size - 8)) <= size
  }

  lemma QuotientMonotonic(n: nat, a: nat, b: nat)
    requires 0 < a <= b
    ensures n / b <= n / a
  {
    var p, q := n / a, n / b;
    assert n == a * p + n % a && n == b * q + n % b;
    Wider(a, b, p);
    assert b * (q - p) == b * q - b * p;
    SmallMultiple(b, q - p);
  }

  lemma Wider(a: nat, b: nat, p: nat)
    requires a <= b
    ensures a * p <= b * p
  {
  }

  lemma AdmittedFrom104(size: nat)
    requires 8 < size && 0xffff_ffff / (size - 8) > 0
    ensures Admitted(size) <==> size >= 104
  {
    var q := 0xffff_ffff / (size - 8);
    PowersOfTwo();
    assert 0xffff_ffff / 96 == 44739242 && 0xffff_ffff / 95 == 45210182;
    if size >= 104 {
      QuotientMonotonic(0xffff_ffff, 96, size - 8);
      BitLenBelow(q - 1, 26);
    } else {
      QuotientMonotonic(0xffff_ffff, size - 8, 95);
      BitLenIs(45210181, 26);
      BitLenMonotonic(45210181, q - 1);
    }
  }

  lemma {:induction false} BitsOfPow2(k: nat)
    ensures Popc(Pow2(k)) == 1 && Ctz(Pow2(k)) == k
  {
    if k == 0 {
      assert Popc(1) == 1 + Popc(0);
    } else {
      BitsOfPow2(k - 1);
    }
  }

  /** The formula, from its two divisions. */
  lemma Computed(b: nat, g: nat, r: nat, i: nat, q: nat)
    requires 0 < g && r < b && q < b && b * g + r == b * i + q + 4 * (Popc(g - 1) + 2)
    ensures b * g >= 0 && IndexOf(b + 8, b * g + r) == i
    ensures OffsetOf(b + 8, b * g + r) == b * g + r - b * i - 4 * Popc(i)
  {
    hide Popc;
    NoNegative(b, g);
    DivisionIsUnique(b * g + r, b, g, r);
    DivisionIsUnique(b * i + q, b, i, q);
  }

  /** Below 116 the formula puts some offset into block 2^25, among that block's pointers. */
  lemma IndexIsWrong(size: nat)
    requires 104 <= size < 116
    ensures var pos := Pow2(25) * (size - 8) + 107;
            && pos < LIMIT && IndexOf(size, pos) == Pow2(25) && OffsetOf(size, pos) == 103 && Header(Pow2(25)) == 104
            && !PlacedRight(size, pos)
  {
    hide Popc, Ctz;
    PowersOfTwo();
    BitsOfPow2(25);
    var n, b := Pow2(25), size - 8;
    var pos := n * b + 107;
    assert b * (n + 1) == n * b + b && b * n == n * b;
    DivisionIsUnique(pos, b, n + 1, 107 - b);
    DivisionIsUnique(pos - 12, b, n, 95);
  }

  lemma OnesBelowPow2()
    ensures Pow2(24) == 0x100_0000 && Popc(Pow2(24) - 1) == 24 && Popc(Pow2(24) - 2) == 23
  {
    PowersOfTwo();
    PopcOfOnes(23);
    PopcOfOnes(24);
    var ones := Pow2(23) - 1;
    assert Pow2(24) - 2 == 2 * ones && 2 * ones / 2 == ones && 2 * ones % 2 == 0;
  }

  lemma {:induction false} PopcOfOnes(k: nat)
    ensures Popc(Pow2(k) - 1) == k
  {
    if k > 0 {
      PopcOfOnes(k - 1);
      assert (Pow2(k) - 1) / 2 == Pow2(k - 1) - 1 && (Pow2(k) - 1) % 2 == 1;
    }
  }

  /** An offset of a file that small blocks have no room for. */
  function LostOffset(size: nat): nat
    requires size >= 104
  {
    0x100_0000 * (size - 8) + Max0(108 - size)
  }

  /** Below 112 the formula puts some offset of a file past the end of block 2^24 - 2. */
  lemma FileIndexIsWrong(size: nat)
    requires 104 <= size < 112
    ensures LostOffset(size) <= FILE_MAX && !PlacedRight(size, LostOffset(size))
    ensures IndexOf(size, LostOffset(size)) == 0xff_fffe && OffsetOf(size, LostOffset(size)) >= size
  {
    hide Popc, Ctz, Pow2, Header, PlacedRight, IsPosition, IndexOf, OffsetOf;
    OnesBelowPow2();
    var n: nat, b: nat, r: nat := 0x100_0000, size - 8, Max0(108 - size);
    assert b * n == n * b && b * (n - 2) == (n - 2) * b;
    Computed(b, n, r, n - 2, 2 * b + r - 104);
    BadPlace(size, LostOffset(size));
  }

  lemma BadPlace(size: int, pos: nat)
    requires size > 8 && OffsetOf(size, pos) >= size
    ensures !PlacedRight(size, pos)
  {
  }

  /** Is the computed position the one of the offset? */
  predicate PlacedRight(size: int, pos: nat)
    requires size > 8
  {
    IndexOf(size, pos) >= 0 && IsPosition(size, pos, IndexOf(size, pos), OffsetOf(size, pos))
  }

  /** Of the block sizes that are let through, exactly those from 116 are right for every 32-bit offset. */
  lemma IndexIsRightExactly(size: nat)
    requires Admitted(size)
    ensures (forall pos: nat | pos < LIMIT :: PlacedRight(size, pos)) <==> size >= 116
  {
    hide PlacedRight, IsPosition, IndexOf, OffsetOf, Npw2, Header, Pow2;
    AdmittedFrom104(size);
    if size >= 116 {
      forall pos: nat | pos < LIMIT ensures PlacedRight(size, pos) {
        Placed(size, pos);
      }
    } else {
      IndexIsWrong(size);
    }
  }

  /** Of the block sizes that are let through, exactly those from 112 are right for every offset of a file. */
  lemma FileIndexIsRightExactly(size: nat)
    requires Admitted(size)
    ensures (forall pos: nat | pos <= FILE_MAX :: PlacedRight(size, pos)) <==> size >= 112
  {
    hide PlacedRight, IsPosition, IndexOf, OffsetOf, Npw2, Header, Pow2;
    AdmittedFrom104(size);
    if size >= 112 {
      forall pos: nat | pos <= FILE_MAX ensures PlacedRight(size, pos) {
        Placed(size, pos);
      }
    } else {
      FileIndexIsWrong(size);
      assert !PlacedRight(size, LostOffset(size));
    }
  }

  lemma Placed(size: nat, pos: nat)
    requires InRange(size, pos)
    ensures PlacedRight(size, pos)
  {
    IndexIsRight(size, pos);
  }
}
