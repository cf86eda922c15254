/**
 * The skip-list of a file's blocks: pointer k of block n leads to block n - 2^k. Search, extension and traversal work
 * on the blocks of a device directly; the caches in front of it are a layer of their own.
 */
module CtzList {
  import opened Words
  import opened Bits
  import opened Commit
  import opened CtzIndexing

  /** The address stored by pointer k of a block. */
  function PointerAt(block: seq<Byte>, k: nat): nat
    requires 4 * k + 4 <= |block|
  {
    Unsigned(LeAt(block, 4 * k))
  }

  /** Where pointer k of block n leads. */
  function Skip(n: nat, k: nat): (r: nat)
    ensures n > 0 ==> r < n
  {
    if Pow2(k) <= n then n - Pow2(k) else 0
  }

  /** A block begins with the pointers that belong to index n of a list. */
  predicate Linked(block: seq<Byte>, blocks: seq<nat>, n: nat)
    requires n <= |blocks|
  {
    Header(n) <= |block| && forall k | 0 <= k < Pointers(n) :: PointerAt(block, k) == blocks[Skip(n, k)]
  }

  /** The blocks of a device that form a list, first to last. */
  predicate List(dev: seq<seq<Byte>>, size: nat, blocks: seq<nat>) {
    forall n | 0 <= n < |blocks| :: blocks[n] < |dev| && |dev[blocks[n]]| == size && Linked(dev[blocks[n]], blocks, n)
  }

  /** The blocks of a file of some length. */
  predicate IsFile(dev: seq<seq<Byte>>, size: nat, blocks: seq<nat>, length: nat) {
    && List(dev, size, blocks) && size < LIMIT && InRange(size, length)
    && (if length == 0 then blocks == [] else |blocks| > 0 && |blocks| - 1 == IndexOf(size, length - 1))
  }

  lemma SkipBack(n: nat, k: nat)
    requires k < Pointers(n)
    ensures Pow2(k) <= n && Skip(n, k) == n - Pow2(k) < n
  {
    CtzDivides(n);
    Pow2Monotonic(k, Ctz(n));
  }

  /** lfs_ctz, by the builtin. */
  function CtzOf(n: uint32): (r: uint32)
    requires n > 0
    ensures r as int == Ctz(n as int) && r < 32
  {
    PowersOfTwo();
    CtzSmall(n as int, 32);
    Ctz(n as int) as uint32
  }

  /** lfs_npw2, by the builtin. */
  function Npw2Of(a: uint32): (r: uint32)
    requires a > 0
    ensures r as int == Npw2(a as int) && r <= 32
  {
    PowersOfTwo();
    BitLenBelow(a as int - 1, 32);
    Npw2(a as int) as uint32
  }

  /** An upper bound on the steps left: first the jumps grow, then the distance shrinks. */
  function ReadsLeft(current: nat, target: nat): nat
    requires current >= target
  {
    var l := BitLen(current - target);
    if current == target then 0
    else if Ctz(current) + 1 >= l then l
    else (l - 1 - Ctz(current)) + l
  }

  /** The jump of lfs_ctz_find: as far as the pointers of a block and the distance allow. */
  function Jump(current: nat, target: nat): nat
    requires current > target
  {
    var far, high := BitLen(current - target) - 1, Ctz(current);
    if far < high then far else high
  }

  /** A jump does not pass the target and brings the end of the search nearer. */
  lemma JumpLands(current: nat, target: nat)
    requires current > target
    ensures var k := Jump(current, target);
            && k <= Ctz(current) && Pow2(k) <= current - target
            && ReadsLeft(current - Pow2(k), target) < ReadsLeft(current, target)
  {
    hide BitLen, Ctz, Pow2;
    var d, k := current - target, Jump(current, target);
    var next := current - Pow2(k);
    BitLenBounds(d);
    Pow2Monotonic(k, BitLen(d) - 1);
    BitLenMonotonic(d - Pow2(k), d);
    if next > target {
      if Ctz(current) + 1 < BitLen(d) {
        CtzGrows(current);
      } else {
        CtzAfter(current, k);
        Nearer(d);
      }
    }
  }

  lemma Nearer(d: nat)
    requires d > 0
    ensures Pow2(BitLen(d) - 1) <= d && BitLen(d - Pow2(BitLen(d) - 1)) <= BitLen(d) - 1
  {
    BitLenBounds(d);
    BitLenBelow(d - Pow2(BitLen(d) - 1), BitLen(d) - 1);
  }

  lemma ReadsBound(current: nat, target: nat)
    requires current >= target
    ensures ReadsLeft(current, target) <= 2 * BitLen(current - target)
  {
  }

  /** A block has a pointer to another one. */
  ghost predicate Points(from: nat, into: nat) {
    exists k: nat :: from > 0 && k <= Ctz(from) && into + Pow2(k) == from
  }

  /** A way from one index to another, from pointer to pointer. */
  ghost predicate Path(path: seq<nat>, from: nat, into: nat) {
    && path != [] && path[0] == from && path[|path| - 1] == into
    && forall i | 0 <= i < |path| - 1 :: Points(path[i], path[i + 1])
  }

  /**
   * lfs_ctz_find: the block that holds an offset and the place in it. path are the indices on the way, from the last
   * block on: it follows at most twice as many pointers as the distance between the two indices has bits.
   */
  method CtzFind(dev: array<seq<Byte>>, blockSize: uint32, head0: nat, size: uint32, pos: uint32,
                 ghost blocks: seq<nat>)
    returns (block: nat, off: uint32, ghost path: seq<nat>)
    requires IsFile(dev[..], blockSize as int, blocks, size as int) && (size > 0 ==> head0 == blocks[|blocks| - 1])
    requires size > 0 ==> pos < size
    ensures size == 0 ==> block == NULL && off == 0
    ensures size > 0 ==>
              var i := IndexOf(blockSize as int, pos as int);
              0 <= i < |blocks| && block == blocks[i] && IsPosition(blockSize as int, pos as int, i, off as int)
    ensures size > 0 ==>
              var i := IndexOf(blockSize as int, pos as int);
              Path(path, |blocks| - 1, i) && |path| - 1 <= 2 * BitLen(|blocks| - 1 - i)
  {
    hide IsPosition, IndexOf, BitLen, Ctz, Pow2, PointerAt, List, ReadsLeft, Jump, Linked, OffsetOf, Path;
    if size == 0 {
      return NULL, 0, [];
    }
    var current, _ := CtzIndexAt(blockSize, size - 1);
    var target, place := CtzIndexAt(blockSize, pos);
    IndexMonotonic(blockSize as int, pos as int, size as int - 1);
    IndexSmall(blockSize as int, size as int - 1);
    var head := head0;
    path := [current as int];
    PathStarts(current as int);
    while current > target
      invariant target <= current && current as int < |blocks| && head == blocks[current as int]
      invariant Path(path, |blocks| - 1, current as int)
      invariant |path| - 1 + ReadsLeft(current as int, target as int) <= ReadsLeft(|blocks| - 1, target as int)
      decreases current
    {
      JumpLands(current as int, target as int);
      var skip := JumpOf(current, target);
      Follow(dev[..], blockSize as int, blocks, current as int, skip as int);
      head := ReadPointer(dev, head, skip as int);
      PathGrows(path, |blocks| - 1, current as int, skip as int);
      current := current - PowerOf(skip);
      path := path + [current as int];
    }
    ReadsBound(|blocks| - 1, target as int);
    return head, place, path;
  }

  lemma PathStarts(n: nat)
    ensures Path([n], n, n)
  {
  }

  lemma PathGrows(path: seq<nat>, from: nat, into: nat, k: nat)
    requires Path(path, from, into) && into > 0 && k <= Ctz(into) && Pow2(k) <= into
    ensures Path(path + [into - Pow2(k)], from, into - Pow2(k))
  {
    hide Pow2, Ctz;
    var next: nat := into - Pow2(k);
    assert next + Pow2(k) == into;
    assert Points(into, next);
    var all := path + [next];
    forall i | 0 <= i < |all| - 1 ensures Points(all[i], all[i + 1]) {
      if i < |path| - 1 {
        assert Points(path[i], path[i + 1]);
      }
    }
  }

  /** lfs_ctz_index, knowing that positions are unique. */
  method CtzIndexAt(blockSize: uint32, off: uint32) returns (i: uint32, o: uint32)
    requires InRange(blockSize as int, off as int)
    ensures i as int == IndexOf(blockSize as int, off as int) && o as int == OffsetOf(blockSize as int, off as int)
    ensures IsPosition(blockSize as int, off as int, i as int, o as int)
  {
    hide IsPosition, IndexOf;
    i, o := CtzIndex(blockSize, off);
    IndexIsRight(blockSize as int, off as int);
    PositionIsUnique(blockSize as int, off as int, i as int, o as int,
                     IndexOf(blockSize as int, off as int), OffsetOf(blockSize as int, off as int));
  }

  method JumpOf(current: uint32, target: uint32) returns (skip: uint32)
    requires target < current < 0xffff_ffff
    ensures skip as int == Jump(current as int, target as int) && skip < 32
  {
    Npw2AtLeastOne((current - target) as int);
    var far, high := Npw2Of(current - target + 1) - 1, CtzOf(current);
    skip := if far < high then far else high;
  }

  lemma Npw2AtLeastOne(d: nat)
    requires d > 0
    ensures Npw2(d + 1) == BitLen(d) >= 1
  {
  }

  function PowerOf(k: uint32): (r: uint32)
    requires k < 32
    ensures r as int == Pow2(k as int)
  {
    PowersOfTwo();
    Pow2Monotonic(k as int, 31);
    Pow2(k as int) as uint32
  }

  /** A pointer of a list followed. */
  lemma Follow(dev: seq<seq<Byte>>, size: nat, blocks: seq<nat>, n: nat, k: nat)
    requires List(dev, size, blocks) && n < |blocks| && k < Pointers(n)
    ensures Pow2(k) <= n && blocks[n] < |dev| && 4 * k + 4 <= |dev[blocks[n]]|
    ensures PointerAt(dev[blocks[n]], k) == blocks[n - Pow2(k)]
  {
    hide LeAt, Pow2, Ctz;
    SkipBack(n, k);
    assert Linked(dev[blocks[n]], blocks, n);
  }

  lemma IndexSmall(size: nat, pos: nat)
    requires InRange(size, pos)
    ensures 0 <= IndexOf(size, pos) < 0x400_0000
  {
    hide IndexOf, OffsetOf, IsPosition;
    PowersOfTwo();
    IndexIsRight(size, pos);
    PositionBounds(size, pos, IndexOf(size, pos), OffsetOf(size, pos));
  }

  method ReadPointer(dev: array<seq<Byte>>, block: nat, k: nat) returns (p: nat)
    requires block < dev.Length && 4 * k + 4 <= |dev[block]|
    ensures p == PointerAt(dev[block], k)
  {
    p := Unsigned(FromLe(dev[block][4 * k..4 * k + 4]));
  }

  /** Later offsets lie in later blocks. */
  lemma IndexMonotonic(size: nat, a: nat, b: nat)
    requires a <= b && InRange(size, b)
    ensures 0 <= IndexOf(size, a) <= IndexOf(size, b)
  {
    hide IndexOf, OffsetOf;
    IndexIsRight(size, a);
    IndexIsRight(size, b);
    var i, j := IndexOf(size, a), IndexOf(size, b);
    PositionBounds(size, a, i, OffsetOf(size, a));
    PositionBounds(size, b, j, OffsetOf(size, b));
    if j < i {
      DataGrows(size, j, i);
    }
  }

  // ---- Extension ----

  /** lfs_bd_erase. */
  method Erase(dev: array<seq<Byte>>, block: nat, blank: seq<Byte>)
    requires block < dev.Length
    modifies dev
    ensures dev[..] == old(dev[..])[block := blank]
  {
    dev[block] := blank;
  }

  /** lfs_bd_prog. */
  method Program(dev: array<seq<Byte>>, block: nat, off: nat, bytes: seq<Byte>)
    requires block < dev.Length && off + |bytes| <= |dev[block]|
    modifies dev
    ensures dev[..] == old(dev[..])[block := Put(old(dev[block]), off, bytes)]
  {
    dev[block] := Put(dev[block], off, bytes);
  }

  /** Copies the data of an incomplete last block, a byte at a time. */
  method CopyBlock(dev: array<seq<Byte>>, head: nat, nblock: nat, n: nat)
    requires head < dev.Length && nblock < dev.Length && head != nblock && n <= |dev[head]| == |dev[nblock]|
    modifies dev
    ensures dev[..] == old(dev[..])[nblock := dev[nblock]] && |dev[nblock]| == |old(dev[nblock])|
    ensures dev[nblock][..n] == old(dev[head])[..n]
  {
    ghost var was := dev[..];
    for i := 0 to n
      invariant dev[..] == was[nblock := dev[nblock]] && |dev[nblock]| == |was[nblock]|
      invariant dev[nblock][..i] == was[head][..i]
    {
      assert dev[head] == dev[..][head] == was[head];
      ghost var b := dev[nblock];
      Program(dev, nblock, i, [dev[head][i]]);
      assert dev[nblock] == dev[..][nblock] == Put(b, i, [was[head][i]]);
      assert dev[nblock][..i + 1] == b[..i] + [was[head][i]];
      assert was[head][..i + 1] == was[head][..i] + [was[head][i]];
    }
  }

  /** Programs pointer i of a new block; the ones before it stay. */
  method ProgramPointer(dev: array<seq<Byte>>, nblock: nat, i: nat, p: nat)
    requires nblock < dev.Length && 4 * i + 4 <= |dev[nblock]| && p < LIMIT
    modifies dev
    ensures dev[..] == old(dev[..])[nblock := dev[nblock]] && |dev[nblock]| == |old(dev[nblock])|
    ensures PointerAt(dev[nblock], i) == p
    ensures forall k | 0 <= k < i :: PointerAt(dev[nblock], k) == PointerAt(old(dev[nblock]), k)
  {
    hide LeAt, Put;
    ghost var b := dev[nblock];
    Program(dev, nblock, 4 * i, ToLe(FromNat(p)));
    assert dev[nblock] == dev[..][nblock];
    PointerWritten(b, i, p);
  }

  /** Pointer i of the block that pointer i of block n leads to: where pointer i + 1 of block n leads. */
  method NextHead(dev: array<seq<Byte>>, nhead: nat, i: nat, ghost size: nat, ghost blocks: seq<nat>, ghost n: nat)
    returns (next: nat)
    requires 0 < n <= |blocks| && i + 1 < Pointers(n) && nhead == blocks[Skip(n, i)] && List(dev[..], size, blocks)
    ensures next == blocks[Skip(n, i + 1)]
  {
    hide LeAt, Pow2, Ctz, List, Pointers;
    NextSkip(n, i);
    Follow(dev[..], size, blocks, Skip(n, i), i);
    assert dev[nhead] == dev[..][nhead];
    next := ReadPointer(dev, nhead, i);
  }

  /** The pointers a new block n begins with: the first leads to the block before, the next as far again. */
  method WritePointers(dev: array<seq<Byte>>, size: nat, head: nat, nblock: nat, skips: nat, ghost blocks: seq<nat>)
    requires List(dev[..], size, blocks) && 0 < |blocks| && head == blocks[|blocks| - 1]
    requires nblock < dev.Length <= LIMIT && nblock !in blocks && |dev[nblock]| == size
    requires skips == Pointers(|blocks|) && 4 * skips <= size
    modifies dev
    ensures dev[..] == old(dev[..])[nblock := dev[nblock]] && |dev[nblock]| == size
    ensures List(dev[..], size, blocks) && Linked(dev[nblock], blocks, |blocks|)
  {
    hide LeAt, PointerAt, Pow2, Ctz, List, Skip;
    ghost var was, n := dev[..], |blocks|;
    var nhead := head;
    LastSkip(n);
    for i := 0 to skips
      invariant dev[..] == was[nblock := dev[nblock]] && |dev[nblock]| == size && List(dev[..], size, blocks)
      invariant i < skips ==> nhead == blocks[Skip(n, i)]
      invariant forall k | 0 <= k < i :: PointerAt(dev[nblock], k) == blocks[Skip(n, k)]
    {
      ghost var now := dev[..];
      ListBlocks(now, size, blocks, Skip(n, i));
      ProgramPointer(dev, nblock, i, nhead);
      ListFrame(now, dev[..], size, blocks, nblock);
      if i != skips - 1 {
        nhead := NextHead(dev, nhead, i, size, blocks, n);
      }
    }
  }

  lemma ListBlocks(dev: seq<seq<Byte>>, size: nat, blocks: seq<nat>, n: nat)
    requires List(dev, size, blocks) && n < |blocks|
    ensures blocks[n] < |dev|
  {
    hide Linked;
  }

  lemma LastSkip(n: nat)
    requires n > 0
    ensures Skip(n, 0) == n - 1
  {
  }

  /** From the block that pointer i leads to, its pointer i leads where pointer i + 1 does. */
  lemma NextSkip(n: nat, i: nat)
    requires n > 0 && i + 1 < Pointers(n)
    ensures Skip(n, i) < n && i < Pointers(Skip(n, i)) && Skip(n, i) - Pow2(i) == Skip(n, i + 1)
    ensures Pow2(i) <= Skip(n, i)
  {
    SkipBack(n, i);
    SkipBack(n, i + 1);
    assert Pow2(i + 1) == 2 * Pow2(i);
    CtzAfter(n, i);
  }

  /** A pointer programmed, and the ones before it. */
  lemma PointerWritten(b: seq<Byte>, i: nat, p: nat)
    requires 4 * i + 4 <= |b| && p < LIMIT
    ensures var c := Put(b, 4 * i, ToLe(FromNat(p)));
            PointerAt(c, i) == p && forall k | 0 <= k < i :: PointerAt(c, k) == PointerAt(b, k)
  {
    hide FromLe, ToLe, FromNat, Unsigned;
    var c := Put(b, 4 * i, ToLe(FromNat(p)));
    WordRoundTrip(FromNat(p));
    assert c[4 * i..4 * i + 4] == ToLe(FromNat(p));
    forall k | 0 <= k < i ensures PointerAt(c, k) == PointerAt(b, k) {
      assert c[4 * k..4 * k + 4] == c[..4 * i][4 * k..4 * k + 4] == b[..4 * i][4 * k..4 * k + 4] == b[4 * k..4 * k + 4];
    }
  }

  /** Is the last block of a file full? */
  predicate LastIsFull(size: nat, length: nat)
    requires size > 8 && length > 0
  {
    OffsetOf(size, length - 1) + 1 == size
  }

  /** The list after an extension: a full list has a block more, an incomplete last block is replaced by its copy. */
  function ExtendedList(size: nat, blocks: seq<nat>, length: nat, nblock: nat): seq<nat>
    requires size > 8
  {
    if length == 0 || blocks == [] then [nblock]
    else if LastIsFull(size, length) then blocks + [nblock]
    else blocks[..|blocks| - 1] + [nblock]
  }

  /** Where the data of the new block goes on. */
  function ExtendedOff(size: nat, blocks: seq<nat>, length: nat): int
    requires size > 8
  {
    if length == 0 then 0 else if LastIsFull(size, length) then Header(|blocks|) else OffsetOf(size, length - 1) + 1
  }

  lemma LinkedPrefix(block: seq<Byte>, a: seq<nat>, b: seq<nat>, n: nat)
    requires n <= |a| && n <= |b| && a[..n] == b[..n] && Linked(block, a, n)
    ensures Linked(block, b, n)
  {
    hide LeAt, Pow2, Ctz, Skip;
    forall k | 0 <= k < Pointers(n) ensures PointerAt(block, k) == b[Skip(n, k)] {
      SkipBack(n, k);
      assert a[..n][Skip(n, k)] == b[..n][Skip(n, k)];
    }
  }

  /** A list does not see changes to other blocks. */
  lemma ListFrame(before: seq<seq<Byte>>, dev: seq<seq<Byte>>, size: nat, blocks: seq<nat>, nblock: nat)
    requires List(before, size, blocks) && nblock !in blocks && nblock < |before|
    requires |dev| == |before| && dev == before[nblock := dev[nblock]]
    ensures List(dev, size, blocks)
  {
    hide Linked;
    forall n | 0 <= n < |blocks|
      ensures blocks[n] < |dev| && |dev[blocks[n]]| == size && Linked(dev[blocks[n]], blocks, n)
    {
      assert blocks[n] in blocks;
      assert dev[blocks[n]] == before[blocks[n]];
    }
  }

  /** A list made one longer. */
  lemma ListSnoc(dev: seq<seq<Byte>>, size: nat, blocks: seq<nat>, nblock: nat)
    requires List(dev, size, blocks) && nblock < |dev| && |dev[nblock]| == size && Linked(dev[nblock], blocks, |blocks|)
    ensures List(dev, size, blocks + [nblock])
  {
    hide Linked;
    var all := blocks + [nblock];
    forall n | 0 <= n < |all| ensures all[n] < |dev| && |dev[all[n]]| == size && Linked(dev[all[n]], all, n) {
      LinkedPrefix(dev[all[n]], blocks, all, n);
    }
  }

  lemma ListTake(dev: seq<seq<Byte>>, size: nat, blocks: seq<nat>, m: nat)
    requires List(dev, size, blocks) && m <= |blocks|
    ensures List(dev, size, blocks[..m])
  {
    hide Linked;
    forall n | 0 <= n < m
      ensures blocks[..m][n] < |dev| && |dev[blocks[..m][n]]| == size && Linked(dev[blocks[..m][n]], blocks[..m], n)
    {
      LinkedPrefix(dev[blocks[n]], blocks, blocks[..m], n);
    }
  }

  /** A copy of the beginning of a block has its pointers. */
  lemma LinkedCopy(a: seq<Byte>, b: seq<Byte>, blocks: seq<nat>, n: nat, m: nat)
    requires n <= |blocks| && Linked(a, blocks, n) && Header(n) <= m <= |a| && m <= |b| && a[..m] == b[..m]
    ensures Linked(b, blocks, n)
  {
    hide FromLe, Pow2, Ctz, Skip;
    forall k | 0 <= k < Pointers(n) ensures PointerAt(b, k) == blocks[Skip(n, k)] {
      assert a[4 * k..4 * k + 4] == a[..m][4 * k..4 * k + 4] && b[4 * k..4 * k + 4] == b[..m][4 * k..4 * k + 4];
      assert PointerAt(a, k) == blocks[Skip(n, k)];
    }
  }

  lemma SingleList(dev: seq<seq<Byte>>, size: nat, nblock: nat)
    requires nblock < |dev| && |dev[nblock]| == size
    ensures List(dev, size, [nblock])
  {
    assert Linked(dev[nblock], [nblock], 0);
  }

  /**
   * lfs_ctz_extend, on a device without bad blocks: nblock is the block that lfs_alloc hands out and blank what it
   * reads as once erased. The result is a well-formed list that ends with the new block; no other block has changed.
   */
  method CtzExtend(dev: array<seq<Byte>>, blockSize: uint32, head: nat, size: uint32, nblock: nat, blank: seq<Byte>,
                   ghost blocks: seq<nat>) returns (block: nat, off: uint32)
    requires IsFile(dev[..], blockSize as int, blocks, size as int) && (size > 0 ==> head == blocks[|blocks| - 1])
    requires nblock < dev.Length <= LIMIT && nblock !in blocks && |blank| == blockSize as int
    requires |blocks| + 1 < 0x400_0000
    modifies dev
    ensures block == nblock && off as int == ExtendedOff(blockSize as int, blocks, size as int)
    ensures dev[..] == old(dev[..])[nblock := dev[nblock]]
    ensures List(dev[..], blockSize as int, ExtendedList(blockSize as int, blocks, size as int, nblock))
    ensures |dev[nblock]| == blockSize as int && off <= blockSize
    ensures size > 0 ==> head < dev.Length && |old(dev[..])[head]| == blockSize as int
    ensures size > 0 && !LastIsFull(blockSize as int, size as int) ==> dev[nblock][..off] == old(dev[..])[head][..off]
  {
    hide IsPosition, IndexOf, OffsetOf, Linked, Pow2, Ctz, List, Header;
    ghost var was := dev[..];
    if size > 0 {
      ListHead(was, blockSize as int, blocks);
    }
    Erase(dev, nblock, blank);
    ListFrame(was, dev[..], blockSize as int, blocks, nblock);
    if size == 0 {
      SingleList(dev[..], blockSize as int, nblock);
      return nblock, 0;
    }
    var index, o := CtzIndexAt(blockSize, size - 1);
    PositionFits(blockSize as int, size as int - 1, index as int, o as int);
    var noff := o + 1;
    if noff != blockSize {
      assert dev[head] == was[head] by { assert head in blocks; }
      CopyLast(dev, blockSize as int, head, nblock, noff as int, blocks);
      return nblock, noff;
    }
    off := AppendBlock(dev, blockSize, head, nblock, index + 1, blocks);
    block := nblock;
  }

  /** The new block takes the place of an incomplete last block. */
  method CopyLast(dev: array<seq<Byte>>, size: nat, head: nat, nblock: nat, noff: nat, ghost blocks: seq<nat>)
    requires List(dev[..], size, blocks) && blocks != [] && head == blocks[|blocks| - 1] && nblock !in blocks
    requires nblock < dev.Length && |dev[nblock]| == size && Header(|blocks| - 1) <= noff <= size
    modifies dev
    ensures dev[..] == old(dev[..])[nblock := dev[nblock]]
    ensures List(dev[..], size, blocks[..|blocks| - 1] + [nblock])
    ensures |dev[nblock]| == size && head < dev.Length && |old(dev[head])| == size
    ensures dev[nblock][..noff] == old(dev[head])[..noff]
  {
    hide Linked, List, Header;
    ghost var was := dev[..];
    ListHead(was, size, blocks);
    assert dev[head] == was[head] && head in blocks;
    CopyBlock(dev, head, nblock, noff);
    CopyIsList(was, dev[..], size, blocks, nblock, noff);
  }

  /** The new block comes behind a full last block. */
  method AppendBlock(dev: array<seq<Byte>>, blockSize: uint32, head: nat, nblock: nat, index: uint32,
                     ghost blocks: seq<nat>)
    returns (off: uint32)
    requires blockSize >= 112 && List(dev[..], blockSize as int, blocks) && 0 < |blocks| == index as int < 0x400_0000
    requires head == blocks[|blocks| - 1] && nblock !in blocks && nblock < dev.Length <= LIMIT
    requires |dev[nblock]| == blockSize as int
    modifies dev
    ensures dev[..] == old(dev[..])[nblock := dev[nblock]]
    ensures List(dev[..], blockSize as int, blocks + [nblock]) && off as int == Header(|blocks|)
    ensures |dev[nblock]| == blockSize as int && off <= blockSize
  {
    hide Linked, List, Pow2, Ctz;
    PowersOfTwo();
    HeaderFits(index as int, blockSize as int);
    var skips := CtzOf(index) + 1;
    WritePointers(dev, blockSize as int, head, nblock, skips as int, blocks);
    ListSnoc(dev[..], blockSize as int, blocks, nblock);
    off := 4 * skips;
  }

  lemma PositionFits(size: nat, pos: nat, i: nat, o: int)
    requires IsPosition(size, pos, i, o)
    ensures Header(i) <= o < size
  {
  }

  lemma HeaderFits(n: nat, size: nat)
    requires 0 < n < Pow2(26) && size >= 112
    ensures Pointers(n) == Ctz(n) + 1 <= 26 && 4 * Pointers(n) <= size
  {
    CtzSmall(n, 26);
  }

  lemma ListHead(dev: seq<seq<Byte>>, size: nat, blocks: seq<nat>)
    requires List(dev, size, blocks) && blocks != []
    ensures var n := |blocks| - 1; blocks[n] < |dev| && |dev[blocks[n]]| == size && Linked(dev[blocks[n]], blocks, n)
    ensures forall n | 0 <= n < |blocks| :: blocks[n] < |dev|
  {
    hide Linked;
  }

  lemma CopyIsList(was: seq<seq<Byte>>, dev: seq<seq<Byte>>, size: nat, blocks: seq<nat>, nblock: nat, m: nat)
    requires List(was, size, blocks) && blocks != [] && nblock !in blocks && nblock < |dev| == |was|
    requires dev == was[nblock := dev[nblock]] && |dev[nblock]| == size && Header(|blocks| - 1) <= m <= size
    requires blocks[|blocks| - 1] < |was| && |was[blocks[|blocks| - 1]]| == size
    requires dev[nblock][..m] == was[blocks[|blocks| - 1]][..m]
    ensures List(dev, size, blocks[..|blocks| - 1] + [nblock])
  {
    hide List, Linked, Header;
    var n := |blocks| - 1;
    ListHead(was, size, blocks);
    ListFrame(was, dev, size, blocks, nblock);
    ListTake(dev, size, blocks, n);
    LinkedCopy(was[blocks[n]], dev[nblock], blocks, n, m);
    assert blocks[..n][..n] == blocks[..n];
    LinkedPrefix(dev[nblock], blocks, blocks[..n], n);
    ListSnoc(dev, size, blocks[..n], nblock);
  }

  // ---- Traversal ----

  function Reverse(s: seq<nat>): seq<nat> { if s == [] then [] else [s[|s| - 1]] + Reverse(s[..|s| - 1]) }

  /** lfs_ctz_traverse: the callback sees every block of the list exactly once, last to first, two by two. */
  method CtzTraverse(dev: array<seq<Byte>>, blockSize: uint32, head0: nat, size: uint32, ghost blocks: seq<nat>)
    returns (seen: seq<nat>)
    requires IsFile(dev[..], blockSize as int, blocks, size as int) && (size > 0 ==> head0 == blocks[|blocks| - 1])
    ensures seen == Reverse(blocks)
  {
    hide IsPosition, IndexOf, OffsetOf, PointerAt, Pow2, List, Pointers, Ctz, Reverse;
    seen := [];
    ReverseNone();
    if size == 0 {
      return;
    }
    var index, _ := CtzIndexAt(blockSize, size - 1);
    var head := head0;
    assert blocks[..|blocks|] == blocks;
    while true
      invariant index as int < |blocks| && head == blocks[index as int]
      invariant Reverse(blocks) == seen + Reverse(blocks[..index as int + 1])
      decreases index
    {
      ReverseStep(blocks, index as int);
      seen := seen + [head];
      if index == 0 {
        return;
      }
      FirstSkips(index as int);
      Follow(dev[..], blockSize as int, blocks, index as int, 0);
      var first := ReadPointer(dev, head, 0);
      var count := 2 - index % 2;
      if count == 2 {
        Follow(dev[..], blockSize as int, blocks, index as int, 1);
        var second := ReadPointer(dev, head, 1);
        ReverseStep(blocks, index as int - 1);
        seen := seen + [first];
        head := second;
      } else {
        head := first;
      }
      index := index - count;
    }
  }

  lemma ReverseNone()
    ensures Reverse([]) == []
  {
  }

  lemma FirstSkips(n: nat)
    requires n > 0
    ensures Pow2(0) == 1 && Pow2(1) == 2 && Pointers(n) >= 1 && (n % 2 == 0 ==> Pointers(n) >= 2 && n >= 2)
  {
  }

  lemma ReverseStep(s: seq<nat>, i: nat)
    requires i < |s|
    ensures Reverse(s[..i + 1]) == [s[i]] + Reverse(s[..i]) && (i == 0 ==> Reverse(s[..i]) == [])
  {
    assert s[..i + 1][..i] == s[..i];
  }

  /** Each block once: the callbacks are the blocks, counted. */
  lemma {:induction false} ReverseCounts(s: seq<nat>)
    ensures multiset(Reverse(s)) == multiset(s)
  {
    if s != [] {
      ReverseCounts(s[..|s| - 1]);
      assert s == s[..|s| - 1] + [s[|s| - 1]];
    }
  }
}
