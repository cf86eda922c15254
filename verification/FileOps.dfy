/**
 * Files kept in skip-lists: read, write, seek and flush behave as on a sequence of bytes, and writing is copy-on-write.
 * The file works on the blocks of a device directly; the caches are a layer of their own.
 */
module FileOps {
  import opened Arith
  import opened Words
  import Allocator
  import opened CtzIndexing
  import opened CtzList
  import opened FileData

  function Zeros(n: nat): (z: seq<Byte>)
    ensures |z| == n && forall i | 0 <= i < n :: z[i] == Byte(0)
  {
    seq(n, _ => Byte(0))
  }

  /** A sequence written over at some place, filled up with zeros if the place is beyond its end. */
  function Overwritten(c: seq<Byte>, at: nat, data: seq<Byte>): seq<Byte> {
    (if at <= |c| then c[..at] else c + Zeros(at - |c|)) + data + (if at + |data| < |c| then c[at + |data|..] else [])
  }

  /**
   * What a write leaves that stops at a position: the first part of the zeros that fill a gap and of the data, written
   * over the contents.
   */
  predicate Partly(c: seq<Byte>, at: nat, data: seq<Byte>, pos: nat, left: seq<Byte>) {
    var start := Min(at, |c|);
    start <= pos <= at + |data| && left == Overwritten(c, start, (Zeros(at - start) + data)[..pos - start])
  }

  /**
   * Byte by byte, what a write leaves that has come as far as a position: the data from where it begins, zero bytes in
   * a gap before it, and everything else as it was.
   */
  ghost predicate WrittenTo(c: seq<Byte>, at: nat, data: seq<Byte>, pos: nat, after: seq<Byte>) {
    && |after| == (if |c| < pos then pos else |c|)
    && forall i | 0 <= i < |after| ::
         if at <= i < pos then i < at + |data| && after[i] == data[i - at]
         else if i < |c| then after[i] == c[i]
         else after[i] == Byte(0)
  }

  lemma PartlyReads(c: seq<Byte>, at: nat, data: seq<Byte>, pos: nat, left: seq<Byte>)
    requires Partly(c, at, data, pos, left)
    ensures WrittenTo(c, at, data, pos, left)
  {
    var start := Min(at, |c|);
    var fill := (Zeros(at - start) + data)[..pos - start];
    assert left == c[..start] + fill + (if pos < |c| then c[pos..] else []);
  }

  lemma OverwrittenReads(c: seq<Byte>, at: nat, data: seq<Byte>)
    ensures WrittenTo(c, at, data, at + |data|, Overwritten(c, at, data))
  {
    PartlyWritten(c, at, data, |data|);
    assert data[..|data|] == data;
    PartlyReads(c, at, data, at + |data|, Overwritten(c, at, data));
  }

  lemma AppendKeeps(c: seq<Byte>, at: nat, data: seq<Byte>, pos: nat, after: seq<Byte>)
    requires WrittenTo(c, at, data, pos, after) && |c| <= at
    ensures c <= after
  {
  }

  lemma PartlyFilled(c: seq<Byte>, at: nat, data: seq<Byte>, pos: nat)
    requires |c| <= pos < at
    ensures Partly(c, at, data, pos, Overwritten(c, |c|, Zeros(pos - |c|)))
  {
    assert (Zeros(at - |c|) + data)[..pos - |c|] == Zeros(pos - |c|);
  }

  lemma PartlyWritten(c: seq<Byte>, at: nat, data: seq<Byte>, n: nat)
    requires n <= |data|
    ensures Partly(c, at, data, at + n, Overwritten(c, at, data[..n]))
  {
    var start := Min(at, |c|);
    assert (Zeros(at - start) + data)[..at + n - start] == Zeros(at - start) + data[..n];
    if at > |c| {
      assert Overwritten(c, at, data[..n]) == Overwritten(c, |c|, Zeros(at - |c|) + data[..n]);
    } else {
      assert Zeros(0) + data[..n] == data[..n];
    }
  }

  function Elements(s: seq<nat>): set<nat> { set b | b in s }

  /** The longest write whose end does not wrap around at 32 bits, whatever the position. */
  const MAX_WRITE := 0x8000_0000

  /** Where a write begins: in append mode not before the end. */
  function WriteAt(append: bool, pos: nat, length: nat): nat { if append && pos < length then length else pos }

  /** lfs_file_t of a file that is not inline. */
  class File {
    const dev: array<seq<Byte>>
    const size: nat
    /** What an erased block reads as. */
    const blank: seq<Byte>
    /** LFS_O_APPEND, and lfs->file_max. */
    const append: bool
    const limit: nat
    /** file->ctz. */
    var head: nat
    var length: nat
    var pos: nat
    var block: nat
    var off: nat
    /** LFS_F_READING and LFS_F_WRITING. */
    var reading: bool
    var writing: bool
    /** LFS_F_DIRTY and LFS_F_ERRED. */
    var dirty: bool
    var erred: bool
    /** lfs->free. */
    const alloc: Allocator.Lookahead
    /** What the directories lead to: the blocks of everything else, and this file as its entry says. */
    const others: seq<nat>
    var savedHead: nat
    var savedLength: nat
    /** The blocks of file->ctz, those of the list being written, and those of the committed file. */
    ghost var blocks: seq<nat>
    ghost var draft: seq<nat>
    ghost var saved: seq<nat>

    ghost predicate Config()
      reads this
    {
      112 <= size < LIMIT && dev.Length <= LIMIT && |blank| == size && pos <= limit <= FILE_MAX && length <= limit
    }

    /** What a traversal reports: what is committed, file->ctz if that is not, and the list being written. */
    ghost function Tree(): set<nat>
      reads this
    {
      Elements(others) + Elements(saved) + (if dirty then Elements(blocks) else {})
        + (if writing then Elements(draft) else {})
    }

    /** The committed file, and how the allocator accounts for the tree. */
    ghost predicate Tracked()
      reads this, dev, alloc, alloc.buffer
    {
      && IsFile(dev[..], size, saved, savedLength) && (savedLength > 0 ==> savedHead == saved[|saved| - 1])
      && (!dirty ==> blocks == saved && length == savedLength && head == savedHead)
      && alloc.Valid() && alloc.count == dev.Length && alloc.used == Tree()
    }

    /** The block being written belongs to nothing else. */
    ghost predicate Private()
      reads this
    {
      && draft != [] && draft[|draft| - 1] == block && block !in others && block !in saved && block !in blocks
      && forall i | 0 <= i < |draft| - 1 :: draft[i] != block
    }

    ghost predicate Writing()
      reads this, dev
    {
      && pos > 0 && 112 <= size && IsFile(dev[..], size, draft, pos) && Private() && off == EndOff(size, pos)
      && (append ==> pos >= length)
    }

    ghost predicate Reading()
      reads this
      requires size > 8
    {
      off == size || (pos < length ==>
        0 <= IndexOf(size, pos) < |blocks| && block == blocks[IndexOf(size, pos)] && off == OffsetOf(size, pos))
    }

    ghost predicate Valid()
      reads this, dev, alloc, alloc.buffer
    {
      && Config() && Tracked() && alloc.pending == {} && IsFile(dev[..], size, blocks, length)
      && (length > 0 ==> head == blocks[|blocks| - 1])
      && (writing ==> !reading && Writing()) && (reading ==> Reading())
    }

    /** What file->ctz leads to. */
    ghost function Base(): (d: seq<Byte>)
      reads this, dev
      requires size > 8
      ensures |d| == length
    {
      Data(dev[..], size, blocks, length)
    }

    /** The bytes before the position, as far as they are written. */
    ghost function Before(): (d: seq<Byte>)
      reads this, dev
      requires size > 8 && (writing || pos <= length)
      ensures |d| == pos
    {
      if writing then Data(dev[..], size, draft, pos) else Base()[..pos]
    }

    /** The file as a sequence of bytes. */
    ghost function Contents(): seq<Byte>
      reads this, dev
      requires size > 8
    {
      if writing then Before() + (if pos < length then Base()[pos..] else []) else Base()
    }

    /** What the committed directory entry leads to: what a mount finds in the file. */
    ghost function Stored(): seq<Byte>
      reads this, dev
      requires size > 8
    {
      Data(dev[..], size, saved, savedLength)
    }

    /**
     * There was no free block to be found: every block of the device is in the tree, or was marked in what was left of
     * the lookahead window to begin with.
     */
    twostate predicate Spent()
      reads this, alloc
    {
      old(Tree()) <= Tree() && forall b: nat | b < alloc.count :: b in Tree() || b in old(alloc.Marked())
    }

    /** While a list is being written the tree grows, and the window is marked with no more than the tree. */
    twostate predicate Grows()
      reads this, alloc
    {
      old(Tree()) <= Tree() && alloc.Marked() <= old(alloc.Marked()) + Tree()
    }

    /** What the window is marked with was marked before, or in the tree before or after. */
    twostate predicate Bounded()
      reads this, alloc
    {
      alloc.Marked() <= old(alloc.Marked()) + old(Tree()) + Tree()
    }

    /** Nothing that is committed, and nothing of file->ctz, has been erased or programmed. */
    twostate predicate Untouched()
      reads this, dev
    {
      && (forall b | (b in others || b in old(saved) || b in old(blocks)) && 0 <= b < dev.Length ::
            dev[b] == old(dev[b]))
      && saved == old(saved) && savedHead == old(savedHead) && savedLength == old(savedLength)
    }

    /** A file as it is opened; alloc has handed out nothing that is not part of the tree. */
    constructor (dev: array<seq<Byte>>, size: nat, blank: seq<Byte>, append: bool, limit: nat, head: nat, length: nat,
                 alloc: Allocator.Lookahead, others: seq<nat>, ghost blocks: seq<nat>)
      requires 112 <= size < LIMIT && dev.Length <= LIMIT && |blank| == size && length <= limit <= FILE_MAX
      requires IsFile(dev[..], size, blocks, length) && (length > 0 ==> head == blocks[|blocks| - 1])
      requires alloc.Valid() && alloc.count == dev.Length && alloc.used == Elements(others) + Elements(blocks)
      requires alloc.pending == {}
      ensures Valid() && this.dev == dev && this.size == size && this.append == append && this.limit == limit
      ensures this.alloc == alloc && this.others == others && !erred && !dirty && !reading && !writing
      ensures Contents() == Stored() == Data(dev[..], size, blocks, length) && pos == 0
    {
      this.dev, this.size, this.blank, this.append, this.head, this.length := dev, size, blank, append, head, length;
      this.limit, this.alloc, this.others := limit, alloc, others;
      this.savedHead, this.savedLength, this.saved, this.blocks := head, length, blocks, blocks;
      this.pos, this.block, this.off, this.reading, this.writing, this.draft := 0, NULL, 0, false, false, [];
      this.dirty, this.erred := false, false;
    }

    // ---- What is in use ----

    /** lfs_fs_rawtraverse, as far as it concerns this file; others is what it reports besides. */
    method Traverse() returns (tree: seq<nat>)
      requires Valid()
      ensures Tree() == Elements(tree)
    {
      hide IndexOf, OffsetOf, List, Data, Reverse, Allocator.Lookahead.Valid;
      var committed := CtzTraverse(dev, size as uint32, savedHead, savedLength as uint32, saved);
      ReverseHas(saved);
      tree := others + committed;
      if dirty {
        var current := CtzTraverse(dev, size as uint32, head, length as uint32, blocks);
        ReverseHas(blocks);
        tree := tree + current;
      }
      if writing {
        var written := CtzTraverse(dev, size as uint32, block, pos as uint32, draft);
        ReverseHas(draft);
        tree := tree + written;
      }
    }

    // ---- Reading ----

    /** Finds the block of the position, if the last read did not leave it at hand. */
    method Locate()
      requires Valid() && !writing && pos < length
      modifies `block, `off, `reading
      ensures Valid() && reading && !writing
      ensures 0 <= IndexOf(size, pos) < |blocks| && block == blocks[IndexOf(size, pos)]
      ensures off == OffsetOf(size, pos) < size
      ensures block < dev.Length && |dev[block]| == size
    {
      hide IndexOf, OffsetOf, Linked, List, Data, Allocator.Lookahead.Valid, Elements;
      ByteIn(dev[..], size, blocks, length, pos);
      if !reading || off == size {
        ghost var path;
        var o;
        block, o, path := CtzFind(dev, size as uint32, head, length as uint32, pos as uint32, blocks);
        SamePosition(size, pos, o as int);
        off := o as int;
        reading := true;
      }
    }

    /** One turn of the read loop: looks the position up if need be and reads within one block. */
    method ReadSome(nsize: nat) returns (chunk: seq<Byte>)
      requires Valid() && !writing && nsize > 0 && pos + nsize <= length
      modifies `pos, `block, `off, `reading
      ensures Valid() && !writing && 0 < |chunk| <= nsize && pos == old(pos) + |chunk| && chunk == Base()[old(pos)..pos]
      ensures Tree() == old(Tree())
    {
      hide IndexOf, OffsetOf, IsFile, Data, Allocator.Lookahead.Valid, Elements;
      Locate();
      var diff := Min(nsize, size - off);
      DataRun(dev[..], size, blocks, length, pos, diff);
      chunk := dev[block][off..off + diff];
      ReadOn(size, pos, diff);
      pos := pos + diff;
      off := off + diff;
    }

    // ---- Writing ----

    /** The list being written has room for the byte at the position, and the place for it is at hand. */
    ghost predicate Opened()
      reads this, dev, alloc, alloc.buffer
    {
      && Config() && Tracked() && alloc.pending <= alloc.used && IsFile(dev[..], size, blocks, length)
      && (length > 0 ==> head == blocks[|blocks| - 1])
      && writing && !reading && Private() && List(dev[..], size, draft) && block < dev.Length && |dev[block]| == size
      && IndexOf(size, pos) == |draft| - 1 && off == OffsetOf(size, pos) < size && (append ==> pos >= length)
    }

    /** The list that writing at the position extends: the list being written, or the old one up to the position. */
    ghost function Extendable(): seq<nat>
      reads this
      requires size > 8
    {
      if writing then draft else if pos == 0 then []
        else blocks[..if 0 <= IndexOf(size, pos - 1) < |blocks| then IndexOf(size, pos - 1) + 1 else 0]
    }

    lemma ExtendableIsFile()
      requires Config() && IsFile(dev[..], size, blocks, length) && (writing ==> Writing())
      requires (writing || pos <= length)
      ensures IsFile(dev[..], size, Extendable(), pos) && Data(dev[..], size, Extendable(), pos) == Before()
      ensures forall b | b in Extendable() :: b in draft || b in blocks
      ensures |Extendable()| + 1 < 0x400_0000
    {
      hide IndexOf, OffsetOf, List;
      if !writing && pos > 0 {
        FileTake(dev[..], size, blocks, length, pos);
      } else if !writing {
        EmptyFile(dev[..], size, blocks, length);
      }
      SmallFile(dev[..], size, Extendable(), pos);
    }

    /** Makes room: if the list being written is full, or none is being written yet, it is extended by a new block. */
    method Prepare() returns (ok: bool)
      requires Valid() && !reading && (writing || pos <= length) && pos < limit && (append ==> pos >= length)
      modifies this, dev, alloc, alloc.buffer
      ensures Untouched() && pos == old(pos) && length == old(length) && head == old(head) && blocks == old(blocks)
      ensures Base() == old(Base()) && dirty == old(dirty)
      ensures ok ==> Opened() && Data(dev[..], size, draft, pos) == old(Before()) && Grows()
      ensures !ok ==> Valid() && !reading && writing == old(writing) && Contents() == old(Contents()) && Spent()
      ensures !ok ==> erred && Before() == old(Before())
    {
      hide IndexOf, OffsetOf, List, Data, LastIsFull, Allocator.Lookahead.Valid, Tree, Elements,
           Allocator.Lookahead.Marked;
      if writing && off != size {
        StillRoom();
        return true;
      }
      var from := block;
      if !writing && pos > 0 {
        from := FindLast();
      }
      var nblock;
      ok, nblock := Allocate();
      if !ok {
        MarkErred(true);
        return;
      }
      Extend(from, nblock);
    }

    /** lfs_alloc_ack and lfs_alloc; a block handed out before is part of the tree by now. */
    method Allocate() returns (ok: bool, nblock: nat)
      requires Valid()
      modifies alloc, alloc.buffer
      ensures alloc.Valid() && alloc.used == old(alloc.used)
      ensures ok ==> nblock < dev.Length && nblock !in Tree() && alloc.pending == {nblock} && Grows()
      ensures !ok ==> alloc.pending == {} && Spent()
    {
      hide Allocator.Lookahead.Valid, IsFile;
      alloc.Ack();
      var tree := Traverse();
      alloc.BudgetFits();
      Allocator.Covers(alloc.bits, alloc.count);
      var r, left := alloc.Alloc(tree, alloc.count);
      ok := r.Got?;
      nblock := if ok then r.block else 0;
    }

    /** The list is extended by a new block. */
    method Extend(from: nat, nblock: nat)
      requires Config() && Tracked() && alloc.pending == {nblock} && nblock < dev.Length && nblock !in Tree()
      requires IsFile(dev[..], size, blocks, length) && (length > 0 ==> head == blocks[|blocks| - 1])
      requires (writing ==> Writing() && off == size) && !reading
      requires (writing || pos <= length) && pos < limit && (append ==> pos >= length)
      requires pos > 0 ==> Extendable() != [] && from == Extendable()[|Extendable()| - 1]
      modifies this, dev, alloc
      ensures Untouched() && pos == old(pos) && length == old(length) && head == old(head) && blocks == old(blocks)
      ensures dirty == old(dirty)
      ensures Base() == old(Base()) && Opened() && Data(dev[..], size, draft, pos) == old(Before())
      ensures old(Tree()) <= Tree() && alloc.Marked() == old(alloc.Marked())
    {
      hide IndexOf, OffsetOf, IsFile, Data, LastIsFull, Linked, Allocator.Lookahead.Valid, ExtendedList, Extendable,
           Reading, Tree, Elements, Writing, List, EndOff;
      ghost var base := Extendable();
      BaseInTree();
      FullBefore();
      ExtendableIsFile();
      var o := ExtendDevice(from, nblock, base);
      Enter(nblock, o, base, if writing then draft else []);
    }

    /** The new block is what is being written, and part of the tree. */
    method Enter(nblock: nat, o: nat, ghost base: seq<nat>, ghost over: seq<nat>)
      requires Config() && Tracked() && alloc.pending == {nblock} && nblock < dev.Length && nblock !in Tree()
      requires !reading
      requires IsFile(dev[..], size, blocks, length) && (length > 0 ==> head == blocks[|blocks| - 1])
      requires Elements(base) <= Tree() && nblock !in others && nblock !in saved && nblock !in blocks
      requires over == (if writing then draft else []) && (append ==> pos >= length)
      requires Tree() == Elements(others) + Elements(saved) + (if dirty then Elements(blocks) else {}) + Elements(over)
      requires over != [] ==> pos > 0 && LastIsFull(size, pos) && over == base
      requires var l := ExtendedList(size, base, pos, nblock);
               && List(dev[..], size, l) && IndexOf(size, pos) == |l| - 1 && o == OffsetOf(size, pos) < size
               && l != [] && l[|l| - 1] == nblock && (forall i | 0 <= i < |l| - 1 :: l[i] != nblock)
               && |dev[nblock]| == size
      modifies `block, `off, `draft, `writing, alloc
      ensures Opened() && draft == ExtendedList(size, base, pos, nblock)
      ensures old(Tree()) <= Tree() && alloc.Marked() == old(alloc.Marked())
    {
      hide IndexOf, OffsetOf, IsFile, Data, LastIsFull, Linked, Allocator.Lookahead.Valid, ExtendedList, Extendable,
           Reading, Tree, Elements, Writing, List, EndOff;
      ghost var tree := Tree();
      block, off := nblock, o;
      draft := ExtendedList(size, base, pos, nblock);
      writing := true;
      Grown(tree, base, nblock);
      GrownOver(tree, over, nblock);
      alloc.Change(Tree());
    }

    /** What lfs_ctz_extend does to the device. */
    method ExtendDevice(from: nat, nblock: nat, ghost base: seq<nat>) returns (o: nat)
      requires Config() && IsFile(dev[..], size, base, pos) && |base| + 1 < 0x400_0000 && pos < limit
      requires (pos > 0 ==> base != [] && from == base[|base| - 1]) && nblock < dev.Length && nblock !in base
      requires IsFile(dev[..], size, blocks, length) && IsFile(dev[..], size, saved, savedLength)
      requires nblock !in blocks && nblock !in saved
      modifies dev
      ensures dev[..] == old(dev[..])[nblock := dev[nblock]] && |dev[nblock]| == size
      ensures IsFile(dev[..], size, blocks, length) && IsFile(dev[..], size, saved, savedLength)
      ensures Base() == old(Base())
      ensures var l := ExtendedList(size, base, pos, nblock);
              && List(dev[..], size, l) && IndexOf(size, pos) == |l| - 1 && o == OffsetOf(size, pos) < size
              && l != [] && l[|l| - 1] == nblock && (forall i | 0 <= i < |l| - 1 :: l[i] != nblock)
              && Data(dev[..], size, l, pos) == Data(old(dev[..]), size, base, pos)
    {
      hide IndexOf, OffsetOf, List, Data, LastIsFull, Linked;
      ghost var was := dev[..];
      var b, place := CtzExtend(dev, size as uint32, from, pos as uint32, nblock, blank, base);
      ExtendedData(was, dev[..], size, base, pos, nblock);
      FrameOther(was, dev[..], size, blocks, length, nblock);
      FrameOther(was, dev[..], size, saved, savedLength, nblock);
      ExtendedLast(size, base, pos, nblock);
      o := place as int;
    }

    /** A list is extended while being written only when its last block is full. */
    lemma FullBefore()
      requires writing ==> Writing() && off == size
      requires size > 8
      ensures writing ==> draft != [] && pos > 0 && LastIsFull(size, pos) && Extendable() == draft
      ensures Tree() == Elements(others) + Elements(saved) + (if dirty then Elements(blocks) else {})
                        + Elements(if writing then draft else [])
    {
      hide IndexOf, OffsetOf, IsFile;
    }

    /** Nothing has gone from the tree. */
    lemma GrownOver(was: set<nat>, over: seq<nat>, nblock: nat)
      requires size > 8 && writing
      requires was == Elements(others) + Elements(saved) + (if dirty then Elements(blocks) else {}) + Elements(over)
      requires over != [] ==> pos > 0 && LastIsFull(size, pos) && draft == ExtendedList(size, over, pos, nblock)
      ensures was <= Tree()
    {
      hide LastIsFull;
    }

    /** The tree has grown by the new block at most. */
    lemma Grown(was: set<nat>, base: seq<nat>, nblock: nat)
      requires size > 8 && writing && draft == ExtendedList(size, base, pos, nblock) && Elements(base) <= was
      requires Elements(others) + Elements(saved) + (if dirty then Elements(blocks) else {}) <= was
      ensures Tree() <= was + {nblock} && nblock in Tree()
    {
    }

    /** What is extended is in use already. */
    lemma BaseInTree()
      requires Config() && Tracked()
      ensures Elements(Extendable()) <= Tree()
      ensures Elements(others) + Elements(saved) + (if dirty then Elements(blocks) else {}) <= Tree()
      ensures forall b | b in Extendable() || b in blocks || b in saved || b in others :: b in Tree()
    {
    }

    /** The block of the last byte before the position. */
    method FindLast() returns (from: nat)
      requires Valid() && !writing && 0 < pos <= length
      ensures Extendable() != [] && from == Extendable()[|Extendable()| - 1]
    {
      hide IndexOf, OffsetOf, List, Data;
      ByteIn(dev[..], size, blocks, length, pos - 1);
      var o;
      ghost var path;
      from, o, path := CtzFind(dev, size as uint32, head, length as uint32, (pos - 1) as uint32, blocks);
    }

    lemma StillRoom()
      requires Valid() && writing && off != size && pos < limit
      ensures Opened()
    {
      hide IndexOf, OffsetOf, Linked, Data;
      ByteIn(dev[..], size, draft, pos, pos - 1);
      SameBlock(size, pos - 1, 1);
      ListHead(dev[..], size, draft);
    }

    /** Programs as much as fits into the block. */
    method ProgramSome(data: seq<Byte>) returns (n: nat)
      requires Opened() && data != [] && pos + |data| <= limit
      modifies this, dev, alloc
      ensures Valid() && writing && 0 < n <= |data| && pos == old(pos) + n
      ensures Untouched() && length == old(length) && head == old(head) && blocks == old(blocks) && dirty == old(dirty)
      ensures Base() == old(Base())
      ensures Before() == Data(old(dev[..]), size, old(draft), old(pos)) + data[..n]
      ensures Tree() == old(Tree()) && alloc.Marked() == old(alloc.Marked())
    {
      hide IndexOf, OffsetOf, List, Data, Allocator.Lookahead.Valid;
      ghost var was := dev[..];
      n := Min(|data|, size - off);
      ProgrammedFits(size, pos);
      Program(dev, block, off, data[..n]);
      ProgrammedData(was, dev[..], size, draft, pos, data[..n]);
      FrameOther(was, dev[..], size, blocks, length, block);
      FrameOther(was, dev[..], size, saved, savedLength, block);
      pos := pos + n;
      off := off + n;
      alloc.Ack();
    }

    /** The write loop: room is made and filled, block by block. */
    method WriteCore(data: seq<Byte>) returns (ok: bool)
      requires Valid() && !reading && (writing || pos <= length) && pos + |data| <= limit && (append ==> pos >= length)
      modifies this, dev, alloc, alloc.buffer
      ensures Valid() && !reading && Untouched() && length == old(length) && head == old(head) && blocks == old(blocks)
      ensures dirty == old(dirty) && (if ok then !erred && Grows() else Spent())
      ensures Base() == old(Base()) && old(pos) <= pos && (writing || pos <= length) && (append ==> pos >= length)
      ensures ok ==>
                && pos == old(pos) + |data| && writing == (old(writing) || data != [])
                && Before() == old(Before()) + data
      ensures !ok ==>
                && pos < old(pos) + |data| && writing == (old(writing) || pos > old(pos))
                && Before() == old(Before()) + data[..pos - old(pos)]
                && (pos == old(pos) ==> Contents() == old(Contents()))
    {
      hide IndexOf, OffsetOf, List, Data, Private, Tracked, Config, Linked, Before, Contents, Base, Tree, Elements,
           Allocator.Lookahead.Marked, Allocator.Lookahead.Valid;
      var k: nat := 0;
      assert old(Before()) + data[..0] == old(Before());
      while k < |data|
        invariant k <= |data| && Valid() && !reading && Untouched() && length == old(length) && head == old(head)
        invariant blocks == old(blocks) && Base() == old(Base()) && pos == old(pos) + k && (append ==> pos >= length)
        invariant dirty == old(dirty) && Grows()
        invariant (writing || pos <= length) && writing == (old(writing) || k > 0)
        invariant Before() == old(Before()) + data[..k]
        invariant k == 0 ==> Contents() == old(Contents())
      {
        ConfigLimit();
        ok := Prepare();
        if !ok {
          return;
        }
        var n := ProgramSome(data[k..]);
        Longer(old(Before()), data, k, n);
        k := k + n;
      }
      assert data[..|data|] == data;
      MarkErred(false);
      ok := true;
    }

    /** Sets or clears LFS_F_ERRED. */
    method MarkErred(e: bool)
      requires Valid()
      modifies `erred
      ensures Valid() && erred == e && Contents() == old(Contents()) && Base() == old(Base()) && Tree() == old(Tree())
      ensures writing || pos <= length ==> Before() == old(Before())
    {
      hide IndexOf, OffsetOf, IsFile, Data, Allocator.Lookahead.Valid, Elements;
      erred := e;
    }

    static lemma Longer(a: seq<Byte>, data: seq<Byte>, k: nat, n: nat)
      requires k + n <= |data|
      ensures a + data[..k] + data[k..][..n] == a + data[..k + n]
    {
      assert data[..k] + data[k..][..n] == data[..k + n];
    }

    lemma ConfigLimit()
      requires Valid()
      ensures pos <= limit && size >= 112 && length <= limit && alloc.count == dev.Length
    {
    }

    /** A byte of file->ctz, as the second handle of lfs_file_flush reads it. */
    method ReadBase(p: nat) returns (b: Byte)
      requires Valid() && p < length
      ensures b == Base()[p]
    {
      hide IndexOf, OffsetOf, List, Linked;
      ghost var path;
      var from, o;
      ByteIn(dev[..], size, blocks, length, p);
      from, o, path := CtzFind(dev, size as uint32, head, length as uint32, p as uint32, blocks);
      SamePosition(size, p, o as int);
      b := dev[from][o];
    }

    /** Copies what lies behind the position out of the old list. */
    method CopyRest() returns (ok: bool)
      requires Valid() && writing
      modifies this, dev, alloc, alloc.buffer
      ensures Valid() && writing && Untouched() && length == old(length) && blocks == old(blocks)
      ensures dirty == old(dirty) && (!old(erred) && ok ==> !erred) && (if ok then Grows() else Spent())
      ensures Base() == old(Base()) && Contents() == old(Contents()) && (ok ==> pos >= length)
      ensures ok ==> Before() == old(Contents())
    {
      hide IndexOf, OffsetOf, List, Data, File.Private, File.Tracked, Linked, File.Writing, File.Base, File.Before,
           Tree, Elements, Allocator.Lookahead.Marked, Allocator.Lookahead.Valid;
      while pos < length
        invariant Valid() && writing && Untouched() && length == old(length) && blocks == old(blocks)
        invariant dirty == old(dirty) && (!old(erred) ==> !erred) && Grows()
        invariant Base() == old(Base()) && Contents() == old(Contents())
        decreases length - pos
      {
        NoAppend();
        var b := ReadBase(pos);
        ghost var before, at := Before(), pos;
        ok := WriteCore([b]);
        if !ok {
          return;
        }
        CopyStep(before, Base(), at);
      }
      ok := true;
    }

    lemma NoAppend()
      requires Valid() && writing
      ensures !reading && (append ==> pos >= length) && length <= limit
    {
    }

    /**
     * lfs_file_flush: afterwards nothing is being read or written, and file->ctz leads to the whole contents. It fails
     * only for want of a free block.
     */
    method Flush() returns (ok: bool)
      requires Valid()
      modifies this, dev, alloc, alloc.buffer
      ensures Valid() && Untouched() && Contents() == old(Contents())
      ensures ok ==> !writing && !reading && pos == old(pos) && (!old(erred) ==> !erred)
      ensures if ok then Bounded() else Spent()
      ensures old(writing) && ok ==> dirty
      ensures !old(writing) ==> ok && length == old(length) && blocks == old(blocks) && dev[..] == old(dev[..])
      ensures !old(writing) ==> head == old(head) && dirty == old(dirty) && erred == old(erred)
      ensures !old(writing) ==> Tree() == old(Tree()) && alloc.Marked() == old(alloc.Marked())
    {
      hide IndexOf, OffsetOf, List, Data, Linked, Allocator.Lookahead.Valid, Tree, Elements, Allocator.Lookahead.Marked;
      StopReading();
      InTree();
      if writing {
        var at := pos;
        ok := CopyRest();
        if !ok {
          return;
        }
        Accept(at);
      }
      ok := true;
    }

    method StopReading()
      requires Valid()
      modifies `reading
      ensures Valid() && !reading && Contents() == old(Contents()) && Base() == old(Base()) && Tree() == old(Tree())
    {
      hide IndexOf, OffsetOf, IsFile, Data, Allocator.Lookahead.Valid, Elements;
      reading := false;
    }

    /** The blocks of file->ctz, while no directory leads to it. */
    ghost function Unsaved(): set<nat>
      reads this
    {
      if dirty then Elements(blocks) else {}
    }

    lemma InTree()
      ensures Unsaved() <= Tree() && Elements(saved) <= Tree()
    {
    }

    /** What has been written becomes the file; the position goes back to where it was. */
    method Accept(at: nat)
      requires Valid() && writing && pos >= length && at <= pos
      modifies this, alloc
      ensures Valid() && !writing && !reading && dirty && pos == at && Contents() == old(Contents())
      ensures erred == old(erred)
      ensures saved == old(saved) && savedHead == old(savedHead) && savedLength == old(savedLength)
      ensures Tree() <= old(Tree()) <= Tree() + old(Unsaved()) && alloc.Marked() == old(alloc.Marked())
    {
      hide IndexOf, OffsetOf, IsFile, Data, Linked, Allocator.Lookahead.Valid, EndOff, Elements, Reading;
      head, length, blocks := block, pos, draft;
      writing, dirty := false, true;
      pos := at;
      alloc.Change(Tree());
    }

    /** The position is moved while nothing is being read or written. */
    method MovePos(p: nat)
      requires Valid() && !writing && !reading && p <= limit
      modifies `pos
      ensures Valid() && pos == p && Contents() == old(Contents()) && Base() == old(Base()) && Tree() == old(Tree())
    {
      hide IndexOf, OffsetOf, IsFile, Data, Allocator.Lookahead.Valid, Elements;
      pos := p;
    }

    /**
     * lfs_file_rawwrite: writes over the contents at the position, or behind them in append mode; a gap is filled with
     * zeros. too is LFS_ERR_FBIG, a false ok without it LFS_ERR_NOSPC, and that only for want of a free block.
     */
    method Write(data: seq<Byte>) returns (ok: bool, too: bool)
      requires Valid() && |data| <= MAX_WRITE
      modifies this, dev, alloc, alloc.buffer
      ensures Valid() && Untouched()
      ensures var at := WriteAt(append, old(pos), |old(Contents())|);
              && too == (at + |data| > limit) && (too ==> !ok && pos == at && Contents() == old(Contents()))
              && (ok ==> Contents() == Overwritten(old(Contents()), at, data) && pos == at + |data|)
      ensures !ok && !too ==>
                var c := old(Contents());
                var at := WriteAt(append, old(pos), |c|);
                pos < at + |data| && Partly(c, at, data, pos, Contents())
      ensures append && !too ==> old(Contents()) <= Contents()
      ensures !append && ok ==> pos == old(pos) + |data|
      ensures !too ==> WrittenTo(old(Contents()), WriteAt(append, old(pos), |old(Contents())|), data, pos, Contents())
      ensures (ok ==> !erred) && (too ==> erred == old(erred)) && (if ok || too then Bounded() else Spent())
    {
      hide IndexOf, OffsetOf, List, Data, Private, Tracked, Linked, Overwritten, Contents, Writing, Tree, Elements,
           Allocator.Lookahead.Marked, Allocator.Lookahead.Valid, WrittenTo, Partly;
      AppendAt();
      if reading {
        ok := Flush();
      }
      if append && pos < length {
        AppendMoves();
        MovePos(length);
      }
      NoAppendLeft();
      if (pos + |data|) % 0x1_0000_0000 > limit {
        return false, true;
      }
      too := false;
      ghost var c, at := Contents(), pos;
      ok := WriteHere(data);
      if ok {
        OverwrittenReads(c, at, data);
      } else {
        PartlyReads(c, at, data, pos, Contents());
      }
      if append {
        AppendKeeps(c, at, data, pos, Contents());
      }
    }

    lemma NoAppendLeft()
      requires Valid()
      ensures writing ==> !reading && (append ==> pos >= length)
      ensures limit <= FILE_MAX && length <= limit && pos <= limit
    {
    }

    /** Writing at the position, which may lie behind the end. */
    method WriteHere(data: seq<Byte>) returns (ok: bool)
      requires Valid() && !reading && pos + |data| <= limit && (append ==> pos >= length)
      modifies this, dev, alloc, alloc.buffer
      ensures Valid() && Untouched() && (if ok then !erred && Grows() else Spent())
      ensures ok ==> Contents() == Overwritten(old(Contents()), old(pos), data) && pos == old(pos) + |data|
      ensures !ok ==> pos < old(pos) + |data| && Partly(old(Contents()), old(pos), data, pos, Contents())
    {
      hide IndexOf, OffsetOf, List, Data, Linked, Overwritten, Config, Private, Tracked, Writing, Reading, Tree,
           Elements, Partly, Base, Allocator.Lookahead.Marked, Allocator.Lookahead.Valid;
      ghost var all := Contents();
      if !writing && pos > length {
        ok := FillGap(data);
        if !ok {
          return;
        }
      }
      ok := WriteOver(data, all);
    }

    /** The gap between the end and the position is filled; data is what is to be written behind it. */
    method FillGap(ghost data: seq<Byte>) returns (ok: bool)
      requires Valid() && !reading && !writing && pos > length
      modifies this, dev, alloc, alloc.buffer
      ensures Valid() && !reading && Untouched() && length == old(length) && Base() == old(Base())
      ensures blocks == old(blocks) && (if ok then Grows() else Spent())
      ensures ok ==> pos == old(pos) && writing && Before() == old(Contents()) + Zeros(pos - length)
      ensures !ok ==> pos < old(pos) && Partly(old(Contents()), old(pos), data, pos, Contents())
    {
      hide IndexOf, OffsetOf, List, Data, Linked, Overwritten, Private, Tracked, Writing, Reading, Tree, Elements,
           Partly, Base, Allocator.Lookahead.Marked, Allocator.Lookahead.Valid, File.Valid;
      ConfigLimit();
      ghost var all := Contents();
      var at := pos;
      MovePos(length);
      ok := FillTo(at);
      if !ok {
        WroteOver(all, Base(), Base(), length, Zeros(pos - length), writing);
        PartlyFilled(all, at, data, pos);
      }
    }

    /** The data are written over all, of which what lies before the position is in the list being written already. */
    method WriteOver(data: seq<Byte>, ghost all: seq<Byte>) returns (ok: bool)
      requires Valid() && !reading && pos + |data| <= limit && (append ==> pos >= length) && (writing || pos <= length)
      requires Before() == if pos <= |all| then all[..pos] else all + Zeros(pos - |all|)
      requires pos < length ==> |all| >= length && all[pos..] == Base()[pos..]
      requires pos >= length ==> |all| <= pos
      requires !writing ==> all == Base()
      modifies this, dev, alloc, alloc.buffer
      ensures Valid() && Untouched() && blocks == old(blocks) && (if ok then !erred && Grows() else Spent())
      ensures ok ==> Contents() == Overwritten(all, old(pos), data) && pos == old(pos) + |data|
      ensures !ok ==> pos < old(pos) + |data| && Partly(all, old(pos), data, pos, Contents())
    {
      hide IndexOf, OffsetOf, List, Data, Linked, Overwritten, Private, Tracked, Writing, Reading, Tree, Elements,
           Partly, Base, Allocator.Lookahead.Marked, Allocator.Lookahead.Valid;
      ghost var before := Before();
      ghost var at: nat := pos;
      ok := WriteCore(data);
      ghost var n: nat := pos - at;
      WroteOver(all, Base(), before, at, data[..n], writing);
      if ok {
        assert data[..n] == data;
      } else {
        PartlyWritten(all, at, data, n);
      }
    }

    /** In append mode the file being written ends at the position. */
    lemma AppendAt()
      requires Valid()
      ensures WriteAt(append, pos, |Contents()|) == if append && pos < length then length else pos
    {
    }

    lemma AppendMoves()
      requires Valid() && append && pos < length
      ensures !writing
    {
    }

    /** Zeros up to a position, a byte at a time. */
    method FillTo(at: nat) returns (ok: bool)
      requires Valid() && !reading && !writing && pos == length && at <= limit
      modifies this, dev, alloc, alloc.buffer
      ensures if ok then Grows() else Spent()
      ensures Valid() && !reading && Untouched() && length == old(length) && Base() == old(Base())
      ensures blocks == old(blocks)
      ensures (writing || pos <= length) && (append ==> pos >= length)
      ensures ok ==> pos == (if at < length then length else at) && Before() == old(Base()) + Zeros(pos - length)
      ensures ok && at > length ==> writing
      ensures !ok ==> length <= pos < at && Before() == old(Base()) + Zeros(pos - length) && (pos > length ==> writing)
    {
      hide IndexOf, OffsetOf, List, Data, Private, Tracked, Linked, Config, Tree, Elements, Allocator.Lookahead.Marked,
           Allocator.Lookahead.Valid;
      assert Base()[..length] == Base() && Base() + Zeros(0) == Base();
      while pos < at
        invariant Valid() && !reading && Untouched() && length == old(length) && Base() == old(Base())
        invariant blocks == old(blocks)
        invariant Grows()
        invariant length <= pos <= (if at < length then length else at) && (writing || pos == length)
        invariant append ==> pos >= length
        invariant Before() == old(Base()) + Zeros(pos - length) && (pos > length ==> writing)
        decreases at - pos
      {
        ghost var n := pos - length;
        ok := WriteCore([Byte(0)]);
        if !ok {
          return;
        }
        assert Zeros(n) + [Byte(0)] == Zeros(n + 1);
        assert old(Base()) + Zeros(n) + [Byte(0)] == old(Base()) + (Zeros(n) + [Byte(0)]);
      }
      ok := true;
    }

    /** lfs_file_rawread: up to n bytes from the position on. */
    method Read(n: nat) returns (ok: bool, data: seq<Byte>)
      requires Valid()
      modifies this, dev, alloc, alloc.buffer
      ensures Valid() && Untouched() && Contents() == old(Contents())
      ensures (ok && !old(erred) ==> !erred) && (if ok then Bounded() else Spent())
      ensures ok ==>
                var c := old(Contents());
                && |data| == (if old(pos) >= |c| then 0 else Min(n, |c| - old(pos)))
                && pos == old(pos) + |data| && data == (if old(pos) >= |c| then [] else c[old(pos)..pos])
    {
      hide IndexOf, OffsetOf, List, Data, Private, Tracked, Linked, Tree, Elements, Allocator.Lookahead.Marked,
           Allocator.Lookahead.Valid;
      if writing {
        ok := Flush();
        if !ok {
          return false, [];
        }
      }
      if pos >= length {
        return true, [];
      }
      var m := Min(n, length - pos);
      ghost var p0: nat := pos;
      ghost var tree, marked := Tree(), alloc.Marked();
      data := [];
      assert m <= length - p0;
      while |data| < m
        invariant Valid() && !writing && pos == p0 + |data| && |data| <= m && p0 + m <= length == |Base()|
        invariant data == Base()[p0..pos] && Base() == old(Contents()) && Untouched() && (!old(erred) ==> !erred)
        invariant Tree() == tree && alloc.Marked() == marked
        decreases m - |data|
      {
        var chunk := ReadSome(m - |data|);
        Joined(Base(), p0, p0 + |data|, pos);
        data := data + chunk;
      }
      ok := true;
    }

    /** lfs_file_rawsize. */
    method Size() returns (n: nat)
      requires Valid()
      ensures n == |Contents()|
    {
      n := if writing then Max(pos, length) else length;
    }

    /** lfs_file_rawseek: a new position within the limit, in 32-bit arithmetic; the contents stay. */
    method Seek(base: nat, offset: int) returns (ok: bool, valid: bool)
      requires Valid() && base <= FILE_MAX && -0x8000_0000 <= offset <= 0x7fff_ffff
      modifies this, dev, alloc, alloc.buffer
      ensures Valid() && Untouched() && Contents() == old(Contents())
      ensures (ok && !old(erred) ==> !erred) && (!valid ==> erred == old(erred))
      ensures if ok || !valid then Bounded() else Spent()
      ensures valid == (0 <= base + offset <= limit) && (!valid ==> !ok && pos == old(pos))
      ensures ok ==> valid && pos == base + offset
    {
      hide IndexOf, OffsetOf, List, Data, Private, Tracked, Linked, Writing, Tree, Elements, Allocator.Lookahead.Marked,
           Allocator.Lookahead.Valid;
      ConfigLimit();
      var npos := (base + offset) % 0x1_0000_0000;
      if npos > limit {
        return false, false;
      }
      if pos == npos {
        return true, true;
      }
      ok := Flush();
      if ok {
        MovePos(npos);
      }
      valid := true;
    }

    /**
     * lfs_file_rawsync. committed is what the commit of the directory entry answers. A synced file is what a mount
     * finds; after an error nothing is done, and until a sync succeeds a mount finds the file as it was.
     */
    method Sync(committed: bool) returns (ok: bool)
      requires Valid()
      modifies this, dev, alloc, alloc.buffer
      ensures Valid() && Contents() == old(Contents())
      ensures forall b | (b in others || b in old(saved) || b in old(blocks)) && 0 <= b < dev.Length ::
                dev[b] == old(dev[b])
      ensures old(erred) ==> ok && erred && Untouched() && pos == old(pos) && writing == old(writing)
      ensures !old(erred) && ok ==> !erred && !writing && !dirty && Stored() == Contents() && pos == old(pos)
      ensures !ok ==> erred && Untouched() && (Spent() || (!committed && pos == old(pos)))
      ensures ok ==> Bounded()
    {
      hide IndexOf, OffsetOf, List, Data, Linked, Tracked, Private, Writing, Reading, Tree, Elements,
           Allocator.Lookahead.Marked, Allocator.Lookahead.Valid;
      if erred {
        return true;
      }
      InTree();
      ok := Flush();
      if !ok {
        MarkErred(true);
        return;
      }
      if dirty {
        if !committed {
          MarkErred(true);
          return false;
        }
        Commit();
      } else {
        NotDirty();
      }
    }

    lemma NotDirty()
      requires Valid() && !dirty && !writing
      ensures Stored() == Contents()
    {
    }

    /** The directory entry now says what file->ctz says. */
    method Commit()
      requires Valid() && !writing && !reading && dirty
      modifies this, alloc
      ensures Valid() && !writing && !reading && !dirty && erred == old(erred) && pos == old(pos)
      ensures Contents() == Stored() == old(Contents())
      ensures Tree() <= old(Tree()) <= Tree() + old(Elements(saved)) && alloc.Marked() == old(alloc.Marked())
    {
      hide IndexOf, OffsetOf, List, Data, Linked, Allocator.Lookahead.Valid;
      savedHead, savedLength, saved := head, length, blocks;
      dirty := false;
      alloc.Change(Tree());
    }
  }

  // ---- Whole runs ----

  /** A file as its user sees it, and what a mount would find in it. */
  datatype Model = Model(bytes: seq<Byte>, pos: nat, saved: seq<Byte>)

  datatype Op = WriteOp(data: seq<Byte>) | ReadOp(n: nat) | SeekOp(offset: int) | FlushOp | SyncOp(committed: bool)

  /** One operation on a sequence of bytes: the new state and what is read. */
  function Perform(m: Model, op: Op, append: bool, limit: nat): (r: (Model, seq<Byte>)) {
    match op
    case WriteOp(data) =>
      var at := WriteAt(append, m.pos, |m.bytes|);
      if at + |data| > limit then (m.(pos := at), [])
      else (m.(bytes := Overwritten(m.bytes, at, data), pos := at + |data|), [])
    case ReadOp(n) =>
      if m.pos >= |m.bytes| then (m, [])
      else
        var k := Min(n, |m.bytes| - m.pos);
        (m.(pos := m.pos + k), m.bytes[m.pos..m.pos + k])
    case SeekOp(offset) => (if 0 <= offset <= limit then m.(pos := offset) else m, [])
    case FlushOp => (m, [])
    case SyncOp(_) => (m.(saved := m.bytes), [])
  }

  function PerformAll(m: Model, ops: seq<Op>, append: bool, limit: nat): (r: (Model, seq<Byte>))
    decreases |ops|
  {
    if ops == [] then (m, [])
    else
      var r := PerformAll(m, ops[..|ops| - 1], append, limit);
      var s := Perform(r.0, ops[|ops| - 1], append, limit);
      (s.0, r.1 + s.1)
  }

  /** Arguments of the size of their C types. */
  predicate Fits(op: Op) {
    && (op.SeekOp? ==> -0x8000_0000 <= op.offset <= 0x7fff_ffff)
    && (op.WriteOp? ==> |op.data| <= MAX_WRITE)
  }

  /** A file as the model sees it. */
  ghost function View(f: File): Model
    reads f, f.dev
    requires f.size > 8
  {
    Model(f.Contents(), f.pos, f.Stored())
  }

  /** The commit of a directory entry that does not go through. */
  predicate Refused(op: Op) { op.SyncOp? && !op.committed }

  /** What an operation leaves that runs out of space: the contents, or a part of what was to be written over them. */
  predicate Stopped(m: Model, op: Op, append: bool, n: Model) {
    && n.saved == m.saved
    && (if op.WriteOp? then
          var at := WriteAt(append, m.pos, |m.bytes|);
          n.pos < at + |op.data| && Partly(m.bytes, at, op.data, n.pos, n.bytes)
        else n.bytes == m.bytes)
  }

  /** One operation on a file that has not run into an error; it fails only for want of a free block or of a commit. */
  method Do(f: File, op: Op) returns (ok: bool, out: seq<Byte>)
    requires f.Valid() && Fits(op) && !f.erred
    modifies f, f.dev, f.alloc, f.alloc.buffer
    ensures f.Valid() && forall b | b in f.others && 0 <= b < f.dev.Length :: f.dev[b] == old(f.dev[b])
    ensures ok ==> !f.erred && (View(f), out) == Perform(old(View(f)), op, f.append, f.limit) && f.Bounded()
    ensures !ok ==>
              || (f.Spent() && Stopped(old(View(f)), op, f.append, View(f)))
              || (Refused(op) && View(f) == old(View(f)))
  {
    hide IndexOf, OffsetOf, List, Data, File.Private, File.Tracked, Linked, File.Writing, Overwritten, File.Contents,
         Partly;
    out := [];
    match op
    case WriteOp(data) =>
      var too;
      ok, too := f.Write(data);
      ok := ok || too;
      StoredStays(f);
    case ReadOp(n) =>
      ok, out := f.Read(n);
      StoredStays(f);
    case SeekOp(offset) =>
      var valid;
      ok, valid := f.Seek(0, offset);
      ok := ok || !valid;
      StoredStays(f);
    case FlushOp =>
      ok := f.Flush();
      StoredStays(f);
    case SyncOp(committed) =>
      ok := f.Sync(committed);
      if !ok {
        StoredStays(f);
      }
  }

  /** What is committed is read from blocks that have not changed. */
  twostate lemma StoredStays(f: File)
    requires old(f.Valid()) && f.Untouched()
    ensures f.Stored() == old(f.Stored())
  {
    hide IndexOf, OffsetOf, Linked, Data, Allocator.Lookahead.Valid;
    forall i | 0 <= i < |f.saved|
      ensures f.saved[i] < |old(f.dev[..])| && old(f.dev[..])[f.saved[i]] == f.dev[..][f.saved[i]]
    {
      assert f.saved[i] in f.saved;
      ListHas(old(f.dev[..]), f.size, f.saved, i);
    }
    DataFrame(old(f.dev[..]), f.dev[..], f.size, f.saved, f.savedLength);
  }

  lemma ListHas(dev: seq<seq<Byte>>, size: nat, blocks: seq<nat>, i: nat)
    requires List(dev, size, blocks) && i < |blocks|
    ensures blocks[i] < |dev|
  {
  }

  /** How many blocks the list of a file of n bytes has. */
  function Blocks(size: nat, n: nat): nat
    requires size > 8
  {
    if n == 0 then 0 else Max0(IndexOf(size, n - 1) + 1)
  }

  /** How many blocks a file takes at most: as it is committed, as it is, and as it is being written. */
  function Taken(size: nat, m: Model): nat
    requires size > 8
  {
    Blocks(size, |m.saved|) + 2 * Blocks(size, |m.bytes|)
  }

  lemma {:induction false} FewElements(s: seq<nat>)
    ensures |Elements(s)| <= |s|
  {
    if s != [] {
      FewElements(s[1..]);
      assert Elements(s) == {s[0]} + Elements(s[1..]);
    }
  }

  lemma BlocksGrow(size: nat, a: nat, b: nat)
    requires a <= b && InRange(size, b)
    ensures Blocks(size, a) <= Blocks(size, b)
  {
    hide IndexOf;
    if a > 0 {
      IndexMonotonic(size, a - 1, b - 1);
    }
  }

  /** The tree takes no more blocks than everything else and the file. */
  lemma TreeSize(f: File)
    requires f.Valid()
    ensures |f.Tree()| <= |f.others| + Taken(f.size, View(f))
  {
    hide IndexOf, OffsetOf, List, Data, Elements, Allocator.Lookahead.Valid, Linked;
    f.ConfigLimit();
    FewElements(f.others);
    FewElements(f.saved);
    FewElements(f.blocks);
    FewElements(f.draft);
    BlocksGrow(f.size, f.length, |f.Contents()|);
    if f.writing {
      BlocksGrow(f.size, f.pos, |f.Contents()|);
    }
  }

  /** All of some sets. */
  function All(sets: seq<set<nat>>): set<nat> { if sets == [] then {} else All(sets[..|sets| - 1]) + sets[|sets| - 1] }

  /**
   * The trees of a run: the first one, one after each operation that went through, and no tree larger than what the
   * model of the file accounts for at that point.
   */
  ghost predicate TreesOf(trees: seq<set<nat>>, m: Model, ops: seq<Op>, f: File)
    requires f.size > 8
  {
    && 1 <= |trees| <= |ops| + 1
    && forall k | 0 <= k < |trees| ::
         |trees[k]| <= |f.others| + Taken(f.size, PerformAll(m, ops[..k], f.append, f.limit).0)
  }

  /**
   * Files refine byte sequences, and writing them is atomic. Any run of writes, reads, seeks, flushes and syncs leaves
   * what it leaves on a sequence of bytes and reads what it reads there. At its end, and so at every moment of it, a
   * mount finds the file as the last successful sync left it, and nothing else that is committed has changed. done
   * counts the operations that went through, trees are the trees on the way. A run ends early only if a directory
   * commit is refused, or if every block of the device is in the tree, was in one on the way, or was marked in what was
   * left of the lookahead window to begin with; and then a write leaves a part of what was to be written.
   */
  method Run(f: File, ops: seq<Op>) returns (ok: bool, out: seq<Byte>, ghost done: nat, ghost trees: seq<set<nat>>)
    requires f.Valid() && !f.erred && forall i | 0 <= i < |ops| :: Fits(ops[i])
    modifies f, f.dev, f.alloc, f.alloc.buffer
    ensures f.Valid() && forall b | b in f.others && 0 <= b < f.dev.Length :: f.dev[b] == old(f.dev[b])
    ensures ok ==> (View(f), out) == PerformAll(old(View(f)), ops, f.append, f.limit)
    ensures TreesOf(trees, old(View(f)), ops, f) && |trees| == done + 1 && trees[0] == old(f.Tree())
    ensures !ok ==>
              && done < |ops|
              && var r := PerformAll(old(View(f)), ops[..done], f.append, f.limit);
              && out == r.1
              && ((Refused(ops[done]) && View(f) == r.0)
                  || (&& Stopped(r.0, ops[done], f.append, View(f)) && trees[done] <= f.Tree()
                      && forall b: nat | b < f.dev.Length ::
                           b in f.Tree() || b in All(trees) || b in old(f.alloc.Marked())))
  {
    hide IndexOf, OffsetOf, List, Data, File.Private, File.Tracked, Linked, File.Writing, Overwritten, File.Contents,
         File.Stored, Perform, PerformAll, Partly, Taken, Stopped, TreesOf, All, File.Tree, Elements, File.Reading,
         Allocator.Lookahead.Marked, Allocator.Lookahead.Valid;
    ghost var m, window := View(f), f.alloc.Marked();
    out, done, trees := [], 0, [f.Tree()];
    f.ConfigLimit();
    TreesStart(f, ops);
    for i := 0 to |ops|
      invariant f.Valid() && !f.erred && done == i && |trees| == i + 1
      invariant forall b | b in f.others && 0 <= b < f.dev.Length :: f.dev[b] == old(f.dev[b])
      invariant (View(f), out) == PerformAll(m, ops[..i], f.append, f.limit)
      invariant TreesOf(trees, m, ops, f) && trees[0] == old(f.Tree()) && trees[i] == f.Tree()
      invariant f.alloc.Marked() <= window + All(trees)
    {
      var more;
      ok, more := Do(f, ops[i]);
      if !ok {
        LastIn(trees);
        return;
      }
      PerformSnoc(m, ops, i, f.append, f.limit);
      LastIn(trees);
      TreesGrow(trees, m, ops, f);
      out, done, trees := out + more, i + 1, trees + [f.Tree()];
    }
    assert ops[..|ops|] == ops;
    ok := true;
  }

  lemma LastIn(sets: seq<set<nat>>)
    requires sets != []
    ensures sets[|sets| - 1] <= All(sets)
  {
  }

  lemma TreesStart(f: File, ops: seq<Op>)
    requires f.Valid()
    ensures TreesOf([f.Tree()], View(f), ops, f) && All([f.Tree()]) == f.Tree()
    ensures PerformAll(View(f), ops[..0], f.append, f.limit) == (View(f), [])
  {
    hide File.Tree, View, Taken, File.Valid, Perform;
    TreeSize(f);
    var trees := [f.Tree()];
    assert trees[..0] == [] && All([]) == {};
  }

  lemma TreesGrow(trees: seq<set<nat>>, m: Model, ops: seq<Op>, f: File)
    requires f.Valid() && |trees| <= |ops| && f.size > 8 && TreesOf(trees, m, ops, f)
    requires View(f) == PerformAll(m, ops[..|trees|], f.append, f.limit).0
    ensures TreesOf(trees + [f.Tree()], m, ops, f) && All(trees + [f.Tree()]) == All(trees) + f.Tree()
  {
    hide File.Tree, View, Taken, File.Valid, Perform, PerformAll;
    TreeSize(f);
    var all := trees + [f.Tree()];
    assert all[..|trees|] == trees;
    forall k | 0 <= k < |all|
      ensures |all[k]| <= |f.others| + Taken(f.size, PerformAll(m, ops[..k], f.append, f.limit).0)
    {
      if k < |trees| {
        assert all[k] == trees[k];
      }
    }
  }

  lemma PerformSnoc(m: Model, ops: seq<Op>, i: nat, append: bool, limit: nat)
    requires i < |ops|
    ensures var r := PerformAll(m, ops[..i], append, limit);
            var s := Perform(r.0, ops[i], append, limit);
            PerformAll(m, ops[..i + 1], append, limit) == (s.0, r.1 + s.1)
  {
    hide Perform;
    assert ops[..i + 1][..i] == ops[..i];
  }

  lemma Joined(s: seq<Byte>, a: nat, b: nat, c: nat)
    requires a <= b <= c <= |s|
    ensures s[a..c] == s[a..b] + s[b..c]
  {
  }

  /** The contents stay while bytes are copied from the old list. */
  lemma CopyStep(before: seq<Byte>, base: seq<Byte>, at: nat)
    requires |before| == at < |base|
    ensures (before + [base[at]]) + (if at + 1 < |base| then base[at + 1..] else []) == before + base[at..]
  {
  }

  /** What has been written, followed by what is left of the old contents, is what writing over them means. */
  lemma WroteOver(all: seq<Byte>, base: seq<Byte>, before: seq<Byte>, at: nat, data: seq<Byte>, writing: bool)
    requires |before| == at && before == (if at <= |all| then all[..at] else all + Zeros(at - |all|))
    requires at < |base| ==> |all| >= |base| && all[at..] == base[at..]
    requires at >= |base| ==> |all| <= at
    requires writing || (data == [] && all == base && at <= |all|)
    ensures (if writing then (before + data) + (if at + |data| < |base| then base[at + |data|..] else []) else base) ==
            Overwritten(all, at, data)
  {
    if writing {
      if at < |base| && at + |data| < |base| {
        assert base[at..][|data|..] == base[at + |data|..] && all[at..][|data|..] == all[at + |data|..];
      }
    }
  }

  lemma EmptyFile(dev: seq<seq<Byte>>, size: nat, blocks: seq<nat>, n: nat)
    requires IsFile(dev, size, blocks, n)
    ensures IsFile(dev, size, [], 0)
  {
  }

  /** A change to one other block does not change a file. */
  lemma FrameOther(a: seq<seq<Byte>>, b: seq<seq<Byte>>, size: nat, blocks: seq<nat>, n: nat, nblock: nat)
    requires IsFile(a, size, blocks, n) && nblock < |a| == |b| && nblock !in blocks && b == a[nblock := b[nblock]]
    ensures IsFile(b, size, blocks, n) && Data(a, size, blocks, n) == Data(b, size, blocks, n)
  {
    hide IndexOf, Linked, Data;
    if n > 0 {
      ListHead(a, size, blocks);
    }
    forall i | 0 <= i < |blocks| ensures blocks[i] < |a| && a[blocks[i]] == b[blocks[i]] {
      assert blocks[i] in blocks;
    }
    DataFrame(a, b, size, blocks, n);
  }

  /** The new block ends the extended list and was not in it. */
  lemma ExtendedLast(size: nat, base: seq<nat>, n: nat, nblock: nat)
    requires size > 8 && nblock !in base
    ensures var l := ExtendedList(size, base, n, nblock);
            && l != [] && l[|l| - 1] == nblock && (forall i | 0 <= i < |l| - 1 :: l[i] != nblock)
            && forall b | b in l :: b == nblock || b in base
  {
    hide LastIsFull;
  }

  lemma ReverseHas(s: seq<nat>)
    ensures forall b :: b in Reverse(s) <==> b in s
  {
    ReverseCounts(s);
    forall b ensures b in Reverse(s) <==> b in s {
      assert b in s <==> multiset(s)[b] > 0;
      assert b in Reverse(s) <==> multiset(Reverse(s))[b] > 0;
    }
  }

  lemma ProgrammedFits(size: nat, p: nat)
    requires InRange(size, p)
    ensures 0 <= OffsetOf(size, p) < size
  {
    hide IndexOf, OffsetOf, DataBefore;
    IndexIsRight(size, p);
  }

  /** Even the longest file has few enough blocks to be extended. */
  lemma SmallFile(dev: seq<seq<Byte>>, size: nat, blocks: seq<nat>, n: nat)
    requires IsFile(dev, size, blocks, n) && n <= FILE_MAX
    ensures |blocks| + 1 < 0x400_0000
  {
    hide IndexOf, OffsetOf, List, IsPosition;
    if n > 0 {
      IndexIsRight(size, n - 1);
      SmallIndex(size, n - 1, IndexOf(size, n - 1), OffsetOf(size, n - 1));
    }
  }

  lemma SmallIndex(size: nat, p: nat, i: nat, o: int)
    requires size >= 112 && p <= FILE_MAX && IsPosition(size, p, i, o)
    ensures i < 0x200_0000
  {
    hide DataBefore, Header, Bits.Popc;
    DataBeforeClosed(size, i);
    Wider(104, size - 8, i);
    assert i * (size - 8) == (size - 8) * i;
  }

  lemma SamePosition(size: nat, p: nat, o: int)
    requires InRange(size, p) && IndexOf(size, p) >= 0 && IsPosition(size, p, IndexOf(size, p), o)
    ensures o == OffsetOf(size, p) && 0 <= o < size
  {
    hide IndexOf, OffsetOf, DataBefore;
    IndexIsRight(size, p);
    PositionIsUnique(size, p, IndexOf(size, p), o, IndexOf(size, p), OffsetOf(size, p));
  }

  /** Where reading stands after some bytes of one block. */
  lemma ReadOn(size: nat, p: nat, k: nat)
    requires InRange(size, p + k) && OffsetOf(size, p) + k <= size && k > 0
    ensures OffsetOf(size, p) + k == size
            || (IndexOf(size, p + k) == IndexOf(size, p) && OffsetOf(size, p + k) == OffsetOf(size, p) + k)
  {
    hide IndexOf, OffsetOf;
    if OffsetOf(size, p) + k < size {
      SameBlock(size, p, k);
    }
  }
}
