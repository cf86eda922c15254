/**
 * lfs_alloc: a window of the device is scanned for blocks in use and handed out bit by bit. Blocks handed out but not
 * yet part of the tree are protected by a budget: until the next acknowledgement no position is visited twice.
 */
module Allocator {
  import opened Arith

  // ---- Positions on the ring of blocks ----

  function BlockAt(pos: int, count: nat): (b: nat)
    requires count > 0
    ensures b < count
  {
    pos % count
  }

  /** How many positions ago a block was visited last, when pos is visited next: 0 is the last one. */
  function Age(pos: int, b: nat, count: nat): (a: nat)
    requires count > 0
    ensures a < count
  {
    (pos - 1 - b) % count
  }

  /** Visiting a position makes its block the newest and every other block one older. */
  lemma AgeStep(pos: int, b: nat, count: nat)
    requires b < count
    ensures Age(pos + 1, b, count) == if b == BlockAt(pos, count) then 0 else Age(pos, b, count) + 1
  {
    var p, q := BlockAt(pos, count), pos / count;
    assert pos == count * q + p;
    if b <= p {
      Remainder(pos - b, count, q, p - b);
    } else {
      assert count * (q - 1) == count * q - count;
      Remainder(pos - b, count, q - 1, p - b + count);
    }
    if b < p {
      Remainder(pos - 1 - b, count, q, p - 1 - b);
    } else {
      assert count * (q - 1) == count * q - count;
      Remainder(pos - 1 - b, count, q - 1, p - 1 - b + count);
    }
  }

  /** Positions can be counted from anywhere. */
  lemma AgeShift(pos: int, b: nat, count: nat)
    requires count > 0
    ensures Age(BlockAt(pos, count), b, count) == Age(pos, b, count)
  {
    var q := pos / count;
    var p := BlockAt(pos, count);
    var a := Age(p, b, count);
    var k := (p - 1 - b) / count;
    assert pos == count * q + p && p - 1 - b == count * k + a;
    assert count * (q + k) == count * q + count * k;
    Remainder(pos - 1 - b, count, q + k, a);
  }

  /** Do two positions stand for the same block? */
  predicate SamePlace(p: int, q: int, count: nat)
    requires count > 0
  {
    (p - q) % count == 0
  }

  lemma SameHere(p: int, count: nat)
    requires count > 0
    ensures SamePlace(p, p, count)
  {
  }

  lemma SameOn(p: int, q: int, d: int, count: nat)
    requires count > 0 && SamePlace(p, q, count)
    ensures SamePlace(p + d, q + d, count)
  {
    assert (p + d) - (q + d) == p - q;
  }

  lemma SameChain(p: int, q: int, r: int, count: nat)
    requires count > 0 && SamePlace(p, q, count) && SamePlace(q, r, count)
    ensures SamePlace(p, r, count)
  {
    var j, k := (p - q) / count, (q - r) / count;
    assert p - q == count * j && q - r == count * k && count * (j + k) == count * j + count * k;
    Remainder(p - r, count, j + k, 0);
  }

  lemma SameWrapped(p: int, q: int, count: nat)
    requires count > 0 && SamePlace(p, q, count)
    ensures SamePlace(BlockAt(p, count), q, count)
  {
    assert p == count * (p / count) + BlockAt(p, count);
    assert BlockAt(p, count) - p == count * -(p / count);
    Remainder(BlockAt(p, count) - p, count, -(p / count), 0);
    SameChain(BlockAt(p, count), p, q, count);
  }

  lemma SameAges(p: int, q: int, count: nat)
    requires count > 0 && SamePlace(p, q, count)
    ensures forall b: nat | b < count :: Age(p, b, count) == Age(q, b, count)
  {
    forall b: nat | b < count ensures Age(p, b, count) == Age(q, b, count) {
      var a, k, j := Age(q, b, count), (q - 1 - b) / count, (p - q) / count;
      assert q - 1 - b == count * k + a && p - q == count * j;
      assert count * (j + k) == count * j + count * k;
      Remainder(p - 1 - b, count, j + k, a);
    }
  }

  lemma SameMoved(x: int, y: int, z: int, d: int, count: nat)
    requires count > 0 && SamePlace(x, y, count) && SamePlace(y - d, z - d, count)
    ensures SamePlace(x, z, count)
  {
    SameOn(y - d, z - d, d, count);
    SameChain(x, y, z, count);
  }

  /** lfs_alloc_lookahead: the position of a block in a window that begins at off. */
  function Offset(off: nat, block: nat, count: nat): (o: nat)
    requires count > 0
    ensures o < count
  {
    ((block - off) + count) % count
  }

  lemma OffsetIsPosition(off: nat, block: nat, count: nat, j: nat)
    requires off < count && block < count && j < count
    ensures Offset(off, block, count) == j <==> BlockAt(off + j, count) == block
  {
    if block >= off {
      Remainder(block - off + count, count, 1, block - off);
    } else {
      Remainder(block - off + count, count, 0, block - off + count);
    }
    if off + j < count {
      Remainder(off + j, count, 0, off + j);
    } else {
      Remainder(off + j, count, 1, off + j - count);
    }
  }

  /** Offsets in a window tell the ages of blocks, when position off + i is visited next. */
  lemma AgeOfOffset(off: nat, i: nat, block: nat, count: nat)
    requires off < count && block < count && i <= count
    ensures var o := Offset(off, block, count);
            Age(off + i, block, count) == if o >= i then count - 1 - (o - i) else i - 1 - o
  {
    var o := Offset(off, block, count);
    if block >= off {
      Remainder(block - off + count, count, 1, block - off);
    } else {
      Remainder(block - off + count, count, 0, block - off + count);
    }
    var a := off + i - 1 - block;
    if a < 0 {
      Remainder(a, count, -1, a + count);
    } else if a < count {
      Remainder(a, count, 0, a);
    } else {
      Remainder(a, count, 1, a - count);
    }
  }

  /** Different blocks have different offsets. */
  lemma OffsetsDiffer(off: nat, a: nat, b: nat, count: nat)
    requires off < count && a < count && b < count && Offset(off, a, count) == Offset(off, b, count)
    ensures a == b
  {
    OffsetIsPosition(off, a, count, Offset(off, a, count));
    OffsetIsPosition(off, b, count, Offset(off, a, count));
  }

  // ---- The allocator ----

  datatype Result = Got(block: nat) | NoSpace | Failed

  /**
   * lfs->free. The tree of blocks in use is outside: used are the blocks a traversal reports, pending those handed out
   * since the last acknowledgement.
   */
  class Lookahead {
    /** cfg->block_count and 8 * cfg->lookahead_size. */
    const count: nat
    const bits: nat
    /** free.buffer, a bit per element. */
    const buffer: array<bool>
    var off: nat
    var size: nat
    var i: nat
    var ack: nat
    ghost var used: set<nat>
    ghost var pending: set<nat>
    /**
     * The blocks in use when the window was scanned; those marked in what was left of the window at the
     * acknowledgement; and those in use at any scan since.
     */
    ghost var scanned: set<nat>
    ghost var stale: set<nat>
    ghost var found: set<nat>

    /** The window holds what its scan saw, and the budget covers it. */
    ghost predicate Window()
      reads this, buffer
    {
      && 0 < count && 0 < bits == buffer.Length && off < count && i <= size <= bits
      && size - i <= ack <= count && size <= count
      && (forall b: nat | b < count && Offset(off, b, count) < size :: buffer[Offset(off, b, count)] <==> b in scanned)
    }

    /** What lies ahead in the window is free unless its bit is set. */
    ghost predicate Ahead()
      reads this
      requires count > 0
    {
      && (forall b: nat | (b in used || b in pending) && i <= Offset(off, b, count) < size :: b in scanned)
      && (forall b: nat | b < count && b in scanned && i <= Offset(off, b, count) < size :: b in stale || b in found)
    }

    /** What was handed out lies behind, and so does, position for position, what has been looked at. */
    ghost predicate Behind()
      reads this
      requires count > 0
    {
      && (forall b | b in used || b in pending || b in stale :: b < count)
      && (forall b | b in pending :: b !in stale && Age(off + i, b, count) < count - ack)
      && (forall b: nat | b < count && Age(off + i, b, count) < count - ack :: b in stale || b in found || b in pending)
      && (forall b | b in stale ::
            Age(off + i, b, count) < count - ack || (b in scanned && i <= Offset(off, b, count) < size))
    }

    /** The marks in what is left of the window. */
    ghost function Marked(): (m: set<nat>)
      reads this
    {
      set b: nat | b < count && b in scanned && i <= Offset(off, b, count) < size
    }

    /** How many positions the budget covers beyond the window. */
    ghost function Beyond(): int
      reads this
    {
      ack - (size - i)
    }

    ghost predicate Valid()
      reads this, buffer
    {
      Window() && Ahead() && Behind()
    }

    /** The state after mounting: an empty window somewhere on the device. */
    constructor (count: nat, bits: nat, seed: nat, ghost used: set<nat>)
      requires count > 0 && bits > 0 && forall b | b in used :: b < count
      ensures Valid() && this.count == count && this.bits == bits && this.used == used && fresh(buffer)
      ensures pending == stale == this.found == {} && Beyond() == ack == count && off + i == seed % count
    {
      this.count, this.bits, buffer := count, bits, new bool[bits];
      off, size, i, ack := seed % count, 0, 0, count;
      this.used, pending, scanned, stale, found := used, {}, {}, {}, {};
    }

    /** lfs_alloc_ack: everything handed out has become part of the tree. */
    method Ack()
      requires Valid() && pending <= used
      modifies this
      ensures Valid() && pending == found == {} && used == old(used) && ack == count
      ensures stale == Marked() == old(Marked())
    {
      hide Offset, BlockAt;
      ack := count;
      pending, stale, found := {}, Marked(), {};
    }

    /** lfs_alloc_drop: the window is given up and what was handed out is abandoned. */
    method Drop()
      requires count > 0 && 0 < bits == buffer.Length && off < count && forall b | b in used :: b < count
      modifies this
      ensures Valid() && pending == stale == found == {} && used == old(used) && size == 0 && ack == count
      ensures off == old(off)
      ensures Beyond() == count
    {
      size, i := 0, 0;
      ack := count;
      pending, scanned, stale, found := {}, {}, {}, {};
    }

    /** The tree changes: blocks join it only after having been handed out. */
    ghost method Change(tree: set<nat>)
      requires Valid() && tree <= used + pending
      modifies `used
      ensures Valid() && used == tree
    {
      used := tree;
    }

    /** How visiting the next position ages the blocks. */
    lemma Visit(pos: int, next: int)
      requires Window() && i < size && pos == off + i && next == pos + 1
      ensures Offset(off, BlockAt(pos, count), count) == i
      ensures forall a: nat | a < count ::
                Age(next, a, count) == if a == BlockAt(pos, count) then 0 else Age(pos, a, count) + 1
      ensures forall a: nat | a < count && Offset(off, a, count) == i :: a == BlockAt(pos, count)
    {
      hide Age, Offset, BlockAt;
      var b := BlockAt(pos, count);
      OffsetIsPosition(off, b, count, i);
      forall a: nat | a < count
        ensures Age(next, a, count) == if a == b then 0 else Age(pos, a, count) + 1
      {
        AgeStep(pos, a, count);
      }
      forall a: nat | a < count && Offset(off, a, count) == i ensures a == b {
        OffsetsDiffer(off, a, b, count);
      }
    }

    /** A position whose bit is set is passed over. */
    method SkipUsed()
      requires Valid() && i < size && buffer[i]
      modifies `i, `ack
      ensures Valid() && i == old(i) + 1 && ack == old(ack) - 1
    {
      hide Age, Offset, BlockAt;
      Visit(off + i, off + i + 1);
      i := i + 1;
      ack := ack - 1;
    }

    /** A position whose bit is clear is handed out. */
    method TakeFree() returns (block: nat)
      requires Valid() && i < size && !buffer[i]
      modifies `i, `ack, `pending
      ensures Valid() && i == old(i) + 1 && ack == old(ack) - 1
      ensures block < count && block !in used && block !in old(pending) && pending == old(pending) + {block}
      ensures block !in stale
    {
      hide Age, Offset, BlockAt;
      Visit(off + i, off + i + 1);
      block := BlockAt(off + i, count);
      NotHandedOut(block);
      i := i + 1;
      ack := ack - 1;
      pending := pending + {block};
    }

    /** The block at the next position is neither in use nor handed out, if its bit is clear. */
    lemma NotHandedOut(block: nat)
      requires Valid() && i < size && !buffer[i] && block < count && Offset(off, block, count) == i
      ensures block !in used && block !in pending && block !in stale
    {
      AgeOfOffset(off, i, block, count);
    }

    /** The traversal of a refill: marks the blocks of the window that it is called back with. */
    method Scan(tree: seq<nat>)
      requires 0 < count && off < count && size <= bits == buffer.Length
      requires forall k | 0 <= k < |tree| :: tree[k] < count
      requires forall j | 0 <= j < bits :: !buffer[j]
      modifies buffer
      ensures forall b: nat | b < count && Offset(off, b, count) < size :: buffer[Offset(off, b, count)] <==> b in tree
    {
      hide Offset;
      for k := 0 to |tree|
        invariant forall b: nat | b < count && Offset(off, b, count) < size ::
                    buffer[Offset(off, b, count)] <==> b in tree[..k]
      {
        var block := tree[k];
        var o := Offset(off, block, count);
        if o < size {
          buffer[o] := true;
        }
        forall b: nat | b < count && Offset(off, b, count) < size
          ensures buffer[Offset(off, b, count)] <==> b in tree[..k + 1]
        {
          if Offset(off, b, count) == o {
            OffsetsDiffer(off, b, block, count);
          }
          assert tree[..k + 1] == tree[..k] + [block];
        }
      }
      assert tree[..|tree|] == tree;
    }

    /** Moves on to the next window and scans it; false when the traversal failed and the window was dropped. */
    method Refill(tree: seq<nat>, fails: bool) returns (ok: bool)
      requires Valid() && i == size && ack > 0 && used == set b | b in tree
      modifies this, buffer
      ensures Valid() && used == old(used) && ok == !fails
      ensures ok ==>
                && Marked() <= used && i == 0 < size && off == BlockAt(old(off + i), count) && ack == old(ack)
                && pending == old(pending)
                && scanned == used
                && stale == old(stale) && found == old(found) + used && Beyond() == Max0(old(Beyond()) - bits)
      ensures !ok ==> size == 0 && pending == stale == found == {} && Beyond() == count
    {
      hide Age, Offset, BlockAt;
      ghost var was := off + i;
      assert forall k | 0 <= k < |tree| :: tree[k] in used;
      off := BlockAt(off + size, count);
      size := Min(bits, ack);
      i := 0;
      forall j | 0 <= j < bits {
        buffer[j] := false;
      }
      if fails {
        Drop();
        return false;
      }
      Scan(tree);
      scanned, found := used, found + used;
      Refilled(was);
      return true;
    }

    /** A fresh window lies where nothing has been handed out: the budget is what is left of the ring. */
    lemma Refilled(was: int)
      requires 0 < count && i == 0 && off == BlockAt(was, count) && size <= ack <= count
      requires forall b | b in used || b in pending || b in stale :: b < count
      requires forall b | b in pending :: b !in stale && Age(was, b, count) < count - ack
      requires forall b: nat | b < count && Age(was, b, count) < count - ack :: b in stale || b in found || b in pending
      requires forall b | b in stale :: Age(was, b, count) < count - ack
      requires scanned == used <= found
      ensures Ahead() && Behind()
    {
      hide Age, Offset, BlockAt;
      forall b: nat | b < count
        ensures Age(off + i, b, count) == Age(was, b, count)
        ensures Age(off + i, b, count) == count - 1 - Offset(off, b, count)
      {
        AgeShift(was, b, count);
        AgeOfOffset(off, 0, b, count);
      }
    }

    /** Once the budget is used up, every block has been visited. */
    lemma AllVisited()
      requires Valid() && ack == 0
      ensures forall b: nat | b < count :: b in stale || b in found || b in pending
    {
      hide Age;
      forall b: nat | b < count ensures b in stale || b in found || b in pending {
        assert Age(off + i, b, count) < count;
      }
    }

    /** Since the acknowledgement every block has been found in use, or marked in the window at hand, or handed out. */
    ghost predicate Exhausted()
      reads this
    {
      ack == 0 && i == size && forall b: nat | b < count :: b in stale || b in found || b in pending
    }

    /** What has been visited, counting positions from anywhere. */
    lemma Reached(pos: int)
      requires Valid() && SamePlace(off + i, pos, count)
      ensures forall b | b in pending :: b < count && Age(pos, b, count) < count - ack
      ensures forall b: nat | b < count && Age(pos, b, count) < count - ack :: b in stale || b in found || b in pending
    {
      hide Age;
      SameAges(off + i, pos, count);
    }

    lemma BudgetFits()
      requires Valid()
      ensures 0 <= Beyond() <= count && (i == size ==> Beyond() == ack) && count > 0 && bits > 0 && i <= size
    {
    }

    /** Is a block among those visited since the acknowledgement when only some of the budget is left? */
    ghost predicate Within(rest: int, b: nat)
      reads this
      requires count > 0
    {
      Age(off + i + (ack - rest), b, count) < count - rest
    }

    /** Hands out the next free block of the window, and passes over what is in use behind it. */
    method TakeNext() returns (ok: bool, block: nat)
      requires Valid()
      modifies `i, `ack, `pending
      ensures Valid() && ack + i == old(ack + i) && Beyond() == old(Beyond()) && Marked() <= old(Marked())
      ensures !ok ==> i == size && pending == old(pending)
      ensures ok ==>
                && i > old(i) && pending == old(pending) + {block}
                && block < count && block !in used && block !in old(pending) && block !in stale
    {
      hide Age, Offset, BlockAt, Ahead, Behind;
      while i != size
        invariant Valid() && pending == old(pending) && ack + i == old(ack + i) && i >= old(i)
        invariant Marked() <= old(Marked())
        decreases size - i
      {
        if !buffer[i] {
          block := TakeFree();
          while i != size && buffer[i]
            invariant Valid() && ack + i == old(ack + i) && i > old(i) && Marked() <= old(Marked())
            invariant pending == old(pending) + {block}
            decreases size - i
          {
            SkipUsed();
          }
          return true, block;
        }
        SkipUsed();
      }
      return false, 0;
    }

    /**
     * lfs_alloc. tree is what a traversal of the filesystem reports, good how many traversals succeed before one fails,
     * left how many of these were not needed. The block handed out is not in use and has not been handed out since the
     * last acknowledgement. Without a free block, every block of the device was found in use or has been handed out. A
     * traversal fails exactly if the budget goes on beyond the windows that the good ones cover.
     */
    method Alloc(tree: seq<nat>, good: nat) returns (r: Result, left: nat)
      requires Valid() && used == set b | b in tree
      modifies this, buffer
      ensures Valid() && used == old(used) && left <= good
      ensures r.Got? ==>
                && r.block < count && r.block !in used && r.block !in old(pending) && r.block !in old(stale)
                && pending == old(pending) + {r.block} && ack < old(ack)
      ensures r.NoSpace? ==> pending == old(pending) && Exhausted()
      ensures !r.Failed? ==>
                && stale == old(stale) && found <= old(found) + used && Marked() <= old(Marked()) + used
                && Beyond() == Max0(old(Beyond()) - bits * (good - left))
                && SamePlace(off + i, old(off + i) + (old(ack) - ack), count)
      ensures r.Failed? ==> pending == stale == found == {} && Beyond() == count && old(Beyond()) > bits * good
      ensures r.Failed? ==>
                var rest := old(Beyond()) - bits * good;
                && (forall b | b in old(pending) :: old(Within(rest, b)))
                && forall b: nat | b < count && old(Within(rest, b)) ::
                     b in old(pending) || b in old(stale) || b in old(found) || b in used
    {
      hide Age, Offset, BlockAt, Ahead, Behind, Window, SamePlace;
      left := good;
      BudgetFits();
      SameHere(off + i, count);
      NoRefill(bits);
      while true
        invariant Valid() && used == old(used) && pending == old(pending) && found <= old(found) + used
        invariant Marked() <= old(Marked()) + used
        invariant stale == old(stale) && left <= good && ack <= old(ack) && i <= size
        invariant Beyond() == Max0(old(Beyond()) - bits * (good - left))
        invariant SamePlace(off + i, old(off + i) + (old(ack) - ack), count)
        decreases ack, if i == size then 1 else 0
      {
        ghost var a0, p0 := ack, off + i;
        var ok, block := TakeNext();
        SameOn(p0, old(off + i) + (old(ack) - a0), a0 - ack, count);
        if ok {
          return Got(block), left;
        }
        if ack == 0 {
          AllVisited();
          return NoSpace, left;
        }
        OneRefill(bits, good - left);
        Reached(old(off + i) + (old(ack) - ack));
        ghost var end := off + i;
        ok := Refill(tree, left == 0);
        if !ok {
          return Failed, 0;
        }
        left := left - 1;
        SameWrapped(end, old(off + i) + (old(ack) - ack), count);
      }
    }

    /**
     * Calls of lfs_alloc until one does not hand out a block. If the tree stays as it is, that hands out each block
     * that is neither in use nor marked in what was left of the window, once, unless a traversal fails; and one fails
     * exactly if the good ones do not cover the device.
     */
    method Drain(tree: seq<nat>, good: nat) returns (got: seq<nat>, r: Result)
      requires Valid() && used == set b | b in tree
      modifies this, buffer
      ensures Valid() && used == old(used) && !r.Got?
      ensures r.Failed? <==> old(Beyond()) > bits * good
      ensures forall b | b in got :: b < count && b !in used && b !in old(pending) && b !in old(stale)
      ensures forall i, j | 0 <= i < j < |got| :: got[i] != got[j]
      ensures r.NoSpace? ==> Beyond() == 0 && Exhausted() && stale == old(stale) && found <= old(found) + used
      ensures r.NoSpace? ==> pending == old(pending) + set b | b in got
      ensures r.NoSpace? && old(found) <= used ==>
                forall b: nat | b < count :: b in got <==> b !in used && b !in old(pending) && b !in old(stale)
      ensures r.Failed? ==> pending == stale == found == {} && Beyond() == count
      ensures r.Failed? && old(found) <= used ==>
                forall b: nat | b < count && b !in used && b !in old(pending) && b !in old(stale) ::
                  b in got <==> old(Within(Beyond() - bits * good, b))
    {
      hide Age, Offset, BlockAt, Ahead, Behind, Window, SamePlace;
      got := [];
      var left: nat := good;
      BudgetFits();
      NoRefill(bits);
      SameHere(off + i, count);
      ghost var b0, p0, a0 := Beyond(), off + i, ack;
      while true
        invariant Valid() && used == old(used) && left <= good
        invariant pending == old(pending) + set b | b in got
        invariant stale == old(stale) && found <= old(found) + used
        invariant forall b | b in got :: b < count && b !in used && b !in old(pending) && b !in old(stale)
        invariant forall i, j | 0 <= i < j < |got| :: got[i] != got[j]
        invariant Beyond() == Max0(b0 - bits * (good - left))
        invariant SamePlace(off + i, p0 + (a0 - ack), count)
        decreases ack
      {
        ghost var left0, b1, p1, a1 := left, Beyond(), off + i, ack;
        r, left := Alloc(tree, left);
        if r.Failed? {
          Refills(bits, good, left0, 0, b0, b1, 0);
          SameOn(p1, p0 + (a0 - a1), a1 - (b0 - bits * good), count);
          SameAges(p1 + (a1 - (b0 - bits * good)), p0 + (a0 - (b0 - bits * good)), count);
          return;
        }
        Refills(bits, good, left0, left, b0, b1, Beyond());
        if r.NoSpace? {
          return;
        }
        SameMoved(off + i, p1 + (a1 - ack), p0 + (a0 - ack), a1 - ack, count);
        got := got + [r.block];
      }
    }

    /**
     * Can a block come back that was handed out and not acknowledged? Calls until one does not hand out a block, with
     * as many traversals succeeding as good says, and calls again until the device is covered: every block of the first
     * calls comes back if the good traversals did not cover the device, and none does if they did.
     */
    method DrainTwice(tree: seq<nat>, good: nat) returns (first: seq<nat>, second: seq<nat>)
      requires Valid() && used == (set b | b in tree) && found <= used
      modifies this, buffer
      ensures Valid() && used == old(used)
      ensures forall b | b in first :: b in second <==> old(Beyond()) > bits * good
      ensures old(Beyond()) > bits * good ==>
                forall b: nat | b < count && b !in used && b !in old(pending) && b !in old(stale) ::
                  b in first <==> old(Within(Beyond() - bits * good, b))
    {
      hide Age, Offset, BlockAt, Ahead, Behind;
      var r;
      first, r := Drain(tree, good);
      Covers(bits, count);
      second, r := Drain(tree, count);
    }
  }

  lemma NoRefill(bits: nat)
    ensures bits * 0 == 0
  {
  }

  lemma OneRefill(bits: nat, n: int)
    ensures bits * (n + 1) == bits * n + bits
  {
  }

  /** Two stretches of refills; b0, b1 and b2 are what lies beyond the window before, between and after. */
  lemma Refills(bits: nat, good: nat, n: nat, left: nat, b0: int, b1: int, b2: int)
    requires left <= n <= good && b1 == Max0(b0 - bits * (good - n))
    ensures b2 == Max0(b1 - bits * (n - left)) ==> b2 == Max0(b0 - bits * (good - left))
    ensures b1 > bits * n ==> b0 > bits * good && b1 - bits * n == b0 - bits * good
    ensures b0 > bits * good ==> b1 > bits * n >= 0 && b1 > bits * (n - left)
  {
    var x, y, z := bits * (good - n), bits * (n - left), bits * left;
    assert bits * (good - left) == x + y && bits * n == y + z && bits * good == x + y + z;
    NoNegative(bits, good - n);
    NoNegative(bits, n - left);
    NoNegative(bits, left);
  }

  lemma Covers(bits: nat, count: nat)
    requires bits > 0
    ensures bits * count >= count
  {
  }

  /** One call of lfs_alloc in a run; the block it hands out may become part of the tree before the next one. */
  datatype Call = Call(good: nat, joins: bool)

  /** Some call between two others answers Failed. */
  predicate FailsBetween(rs: seq<Result>, i: nat, j: nat) { exists k | i < k < j && k < |rs| :: rs[k].Failed? }

  lemma StillFails(rs: seq<Result>, r: Result)
    ensures forall i: nat, j: nat | j <= |rs| && FailsBetween(rs, i, j) :: FailsBetween(rs + [r], i, j)
    ensures forall i: nat | FailsBetween(rs, i, |rs|) :: FailsBetween(rs + [r], i, |rs| + 1)
    ensures forall i: nat, j: nat | r.Failed? && i < |rs| < j :: FailsBetween(rs + [r], i, j)
  {
    forall i: nat, j: nat | j <= |rs| && FailsBetween(rs, i, j)
      ensures FailsBetween(rs + [r], i, j) && FailsBetween(rs + [r], i, |rs| + 1)
    {
      var k :| i < k < j && k < |rs| && rs[k].Failed?;
      assert (rs + [r])[k].Failed?;
    }
    if r.Failed? {
      assert (rs + [r])[|rs|].Failed?;
    }
  }

  /** Over whole runs without an acknowledgement, a block comes back only if a call in between answers Failed. */
  method AllocRun(a: Lookahead, tree0: seq<nat>, calls: seq<Call>) returns (rs: seq<Result>)
    requires a.Valid() && a.used == set b | b in tree0
    modifies a, a.buffer
    ensures a.Valid() && |rs| == |calls|
    ensures forall i, j | 0 <= i < j < |rs| && rs[i].Got? && rs[i] == rs[j] :: FailsBetween(rs, i, j)
  {
    hide Lookahead.Valid, Lookahead.Exhausted, Lookahead.Within, FailsBetween;
    rs := [];
    var tree := tree0;
    for n := 0 to |calls|
      invariant a.Valid() && a.used == (set b | b in tree) && |rs| == n
      invariant forall i, j | 0 <= i < j < n && rs[i].Got? && rs[i] == rs[j] :: FailsBetween(rs, i, j)
      invariant forall i | 0 <= i < n && rs[i].Got? ::
                  rs[i].block in a.pending || rs[i].block in a.used || FailsBetween(rs, i, n)
    {
      var r, left := a.Alloc(tree, calls[n].good);
      StillFails(rs, r);
      rs := rs + [r];
      if r.Got? && calls[n].joins {
        tree := tree + [r.block];
        a.Change(set b | b in tree);
      }
    }
  }

  /**
   * A block that does come back: 128 blocks, a window of 64, nothing in use, and a traversal that fails when the second
   * window is to be scanned.
   */
  method Reused() returns (first: seq<nat>, second: seq<nat>)
    ensures 0 in first && forall b | b in first :: b in second
  {
    hide Lookahead.Valid;
    var a := new Lookahead(128, 64, 0, {});
    assert Age(64, 0, 128) == 63;
    first, second := a.DrainTwice([], 1);
  }
}
