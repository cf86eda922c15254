/**
 * lfs_mdir_t: a metadata pair held in memory. What the fields say is always exactly what a fetch of the two blocks
 * would find, before and after every commit.
 */
module MetadataPair {
  import opened Arith
  import opened Words
  import opened Tags
  import opened Log
  import opened Checksum
  import opened Fetch
  import opened Commit
  import opened Committer
  import opened Lookup
  import opened LogReader
  import opened Traverse
  import opened GlobalState
  import opened Contents
  import opened Switch
  import opened Torn
  import opened PowerLoss
  import opened Scanner

  /** The number of entries as lfs_dir_commit follows it through an attribute list. */
  function ItemsCount(count: int, items: seq<Item>): int
    decreases |items|
  {
    if items == [] then count
    else
      var next := if ItemTag(items[0]).kind == TYPE_CREATE then count + 1
                  else if ItemTag(items[0]).kind == TYPE_DELETE then count - 1
                  else count;
      ItemsCount(next, items[1..])
  }

  /** What a caller of lfs_dir_commit answers for. */
  ghost predicate CommitOk(log: seq<Rec>, count: nat, items: seq<Item>) {
    && ItemsSound(items) && ItemsOk(items)
    // no attribute that a LFS_FROM_* item brings in is removed after it; see Resurrects
    && Compaction.Harmless(items)
    // names are only given to ids that exist, and every entry has one
    && 0 <= ItemsCount(count, items) < 0xff
    && Replay(log + Flatten(items)).count == ItemsCount(count, items)
    && AllNamed(log + Flatten(items), ItemsCount(count, items))
  }

  /** NoSpace is LFS_ERR_NOSPC; NeedsSplit stands for a split of the directory, which is not modelled. */
  datatype Written = Done | NoSpace | NeedsSplit

  function TotalSize(recs: seq<Rec>): nat {
    if recs == [] then 0 else TotalSize(recs[..|recs| - 1]) + recs[|recs| - 1].tag.DSize()
  }

  lemma {:induction false} TotalConcat(a: seq<Rec>, b: seq<Rec>)
    ensures TotalSize(a + b) == TotalSize(a) + TotalSize(b)
    decreases |b|
  {
    if b == [] {
      assert a + b == a;
    } else {
      assert (a + b)[..|a + b| - 1] == a + b[..|b| - 1];
      TotalConcat(a, b[..|b| - 1]);
    }
  }

  lemma {:induction false} EncodeSize(recs: seq<Rec>, ptag: Word)
    requires AllCommittable(recs)
    ensures |Encode(recs, ptag)| == TotalSize(recs)
    decreases |recs|
  {
    hide Pack;
    if recs != [] {
      EncodeSize(recs[1..], Pack(recs[0].tag));
      assert recs == [recs[0]] + recs[1..] && [recs[0]][..0] == [];
      TotalConcat([recs[0]], recs[1..]);
    }
  }

  /** Where the tags of a commit end. */
  lemma AdvanceSize(st: State, recs: seq<Rec>)
    requires AllCommittable(recs)
    ensures Advance(st, recs).off == st.off + TotalSize(recs)
  {
    hide Encode;
    AdvanceShape(st, recs);
    EncodeSize(recs, st.ptag);
  }

  /** Attributes and the closing tag fit behind some place. */
  predicate FitsBehind(off: nat, recs: seq<Rec>, length: nat) { off + TotalSize(recs) + 8 <= length }

  /** The place where a compaction of some records ends. */
  predicate EndsBehind(off: nat, recs: seq<Rec>, prog: nat)
    requires prog > 0
  {
    off == CommitEnd(4 + TotalSize(recs), prog)
  }

  /** The test of lfs_dir_compact for a split: more than one entry, and attributes of more than half a block. */
  predicate Overfull(n: nat, size: nat, length: nat, prog: nat)
    requires prog > 0 && length >= 36
  {
    n > 1 && size > Min(length - 36, AlignUp(length / 2, prog))
  }

  /**
   * What a compaction answers. kept are the attributes that are written, recs with the tail and the global state; full
   * says that there is no block left for a split, so that the block is filled beyond the half if that is enough.
   */
  function CompactResult(n: nat, kept: seq<Rec>, recs: seq<Rec>, length: nat, prog: nat, full: bool): Written
    requires prog > 0 && length >= 36
  {
    if Overfull(n, TotalSize(kept), length, prog) && !full then NeedsSplit
    else if Overfull(n, TotalSize(kept), length, prog) && TotalSize(kept) > length - 36 then NoSpace
    else if FitsBehind(4, recs, length) then Done
    else NoSpace
  }

  /** There is one multiple in each span of its size. */
  lemma SameMultiple(a: nat, b: nat, least: nat, prog: nat)
    requires prog > 0 && a % prog == 0 && b % prog == 0 && least <= a < least + prog && least <= b < least + prog
    ensures a == b
  {
    var k, q := a / prog, b / prog;
    assert a == prog * k && b == prog * q;
    assert prog * (k - q) == a - b && prog * (q - k) == b - a;
    SmallMultiple(prog, k - q);
    SmallMultiple(prog, q - k);
  }

  /**
   * A directory of several entries is split if its attributes are more than a block takes with its reserve of 36 bytes,
   * or more than half a block, which is rounded up to whole program units.
   */
  lemma SplitFromHalf(n: nat, kept: seq<Rec>, recs: seq<Rec>, length: nat, prog: nat, full: bool, half: nat)
    requires prog > 0 && length >= 36 && half % prog == 0 && length / 2 <= half < length / 2 + prog
    ensures var r, size := CompactResult(n, kept, recs, length, prog, full), TotalSize(kept);
            && (r == NeedsSplit <==> !full && n > 1 && (size > length - 36 || size > half))
            && (r == Done ==> n <= 1 || size <= length - 36)
            && (r == Done <==> r != NeedsSplit && (n <= 1 || size <= length - 36) && 4 + TotalSize(recs) + 8 <= length)
  {
    SameMultiple(half, AlignUp(length / 2, prog), length / 2, prog);
  }

  lemma HalfFull(n: nat, size: nat, length: nat, prog: nat)
    requires prog > 0 && length >= 36
    ensures n > 1 && !Overfull(n, size, length, prog) ==> size <= length - 36 && size < length / 2 + prog
  {
  }

  class Mdir {
    const prog: nat
    /** dir->pair: the block in force and the other. */
    var active: array<Byte>
    var other: array<Byte>
    var rev: Word
    var off: nat
    var etag: Word
    var count: nat
    var tail: Tail
    var erased: bool
    ghost var log: seq<Rec>

    ghost predicate Shape()
      reads this
    {
      && prog > 0 && active != other && active.Length == other.Length >= 128 && active.Length % prog == 0
      && 4 <= off <= active.Length
      && AllSound(log) && AllShaped(log) && Replay(log).count == count && TailOk(tail.pair, tail.split)
    }

    /** The fields are what a fetch of the block finds. */
    ghost predicate Valid()
      reads this, active, other
    {
      && Shape() && rev == Rev(active[..])
      && FetchBlock(active[..], prog).found == Found(off, etag, log, tail.pair, tail.split)
    }

    /** A fetch of the pair chooses the active block. */
    ghost predicate Chosen()
      reads this, active, other
      requires Shape()
    {
      InForce(active[..], other[..], prog)
    }

    constructor (prog: nat, active: array<Byte>, other: array<Byte>, rev: Word, off: nat, etag: Word, count: nat,
                 tail: Tail, erased: bool, ghost log: seq<Rec>)
      ensures this.prog == prog && this.active == active && this.other == other && this.rev == rev && this.off == off
      ensures this.etag == etag && this.count == count && this.tail == tail && this.erased == erased && this.log == log
    {
      this.prog, this.active, this.other, this.rev, this.off := prog, active, other, rev, off;
      this.etag, this.count, this.tail, this.erased, this.log := etag, count, tail, erased, log;
    }

    /** The fields lead back through the log, whatever follows it on the block. */
    ghost predicate Readable()
      reads this, active
    {
      Shape() && rev == Rev(active[..]) && Encodes(active[..], off, etag, log)
    }

    lemma ValidIsReadable()
      requires Valid()
      ensures Readable()
    {
      hide Encodes, Sound;
      FetchedEncodes(active[..], prog);
    }

    lemma CanWalk()
      requires Shape()
      ensures AllOnDisk(log) && PlainCreates(log)
    {
      hide OnDisk, WellSized;
      assert forall i | 0 <= i < |log| :: Sound(log[i]);
    }

    /** lfs_dir_get; hidden is the id of the entry a pending move takes away. */
    method Get(hidden: Option<nat>, q: Query, size: nat) returns (r: Lookup)
      requires Readable() && AsksForAttr(q) && QueryFits(log, hidden, q)
      ensures r == Answer(Meaning(log, hidden, q), AnswerId(q, r), size)
    {
      CanWalk();
      r := GetSlice(active, off, etag, hidden, q, 0, size, log);
      ghost var at: nat :| Sliced(active[..], at, Meaning(log, hidden, q), AnswerId(q, r), 0, size, r);
      SlicedFromStart(active[..], at, Meaning(log, hidden, q), AnswerId(q, r), size, r);
    }

    /** lfs_dir_getgstate. */
    method GetState() returns (g: GState)
      requires Readable()
      ensures g == Stored(log)
    {
      var r := Get(None, Query(0x7ff, TYPE_MOVESTATE, None), 12);
      g := if r.Got? then StateOf(r.data) else ZERO;
    }

    /** All tags of the pair, as a traversal reads them. */
    method ReadAll() returns (recs: seq<Rec>)
      requires Valid()
      ensures recs == log
    {
      hide FetchBlock, Encodes, Sound;
      ValidIsReadable();
      recs := ReadLog(active, off, etag, log);
    }

    /** The tags an attribute list stands for, in order. */
    method FlattenItems(items: seq<Item>) returns (recs: seq<Rec>)
      requires ItemsOk(items)
      ensures recs == Flatten(items)
    {
      hide Expand, ItemOk;
      recs := [];
      assert items[0..] == items;
      for i := 0 to |items|
        invariant Flatten(items) == recs + Flatten(items[i..])
      {
        assert items[i..][0] == items[i] && items[i..][1..] == items[i + 1..];
        var more := ExpandItem(items[i], ItemTag(items[i]).id);
        recs := recs + more;
      }
    }

    /** The loop of lfs_dir_commit over its attribute list. */
    method FollowItems(items: seq<Item>) returns (n: int, t: Tail)
      requires ItemsSound(items)
      ensures n == ItemsCount(count, items) && t == ItemsTail(tail, items)
    {
      hide Carried, TailOk, Type1, TailOf;
      n, t := count, tail;
      assert items[0..] == items;
      for i := 0 to |items|
        invariant ItemsCount(count, items) == ItemsCount(n, items[i..])
        invariant ItemsTail(tail, items) == ItemsTail(t, items[i..])
      {
        assert items[i..][0] == items[i] && items[i..][1..] == items[i + 1..];
        if ItemTag(items[i]).kind == TYPE_CREATE {
          n := n + 1;
        } else if ItemTag(items[i]).kind == TYPE_DELETE {
          n := n - 1;
        }
        if items[i].Plain? && Type1(items[i].rec.tag.kind) == TYPE_TAIL {
          TailHasPair(items[i].rec);
          t := Tail(TailOf(items[i].rec.data), items[i].rec.tag.kind & 1 != 0);
        }
      }
    }

    /** The fields after a commit that succeeded. */
    ghost predicate Took(before: seq<Rec>, items: seq<Item>, delta: GState, n: nat, t: Tail)
      reads this, active, other
      requires ItemsOk(items)
    {
      && Valid() && count == n && tail == t
      && SameEntries(log, before + Flatten(items), n) && Stored(log) == XorG(Stored(before), delta)
    }

    /** The active block is what a compaction of some records makes of an erased block; see PowerLoss for its cuts. */
    ghost predicate Rewritten(recs: seq<Rec>, blank: seq<Byte>)
      reads this, active
    {
      prog > 0 && Fits(blank, rev, recs, prog) && active[..] == Compacted(blank, rev, recs, prog).block
    }

    /** The active block is what an append of some records makes of it; see Torn for its cuts. */
    ghost predicate Appended(before: seq<Byte>, recs: seq<Rec>)
      reads this, active
    {
      && |before| >= 4 && prog > 0 && AllCommittable(recs)
      && CommitEnd(Advance(Resume(FetchBlock(before, prog).found), recs).off, prog) <= |before|
      && active[..] == Committed(before, Resume(FetchBlock(before, prog).found), recs, prog).block
    }

    ghost predicate Sized()
      reads this
    {
      prog > 0 && active.Length == other.Length >= 128 && AllOnDisk(log)
    }

    /** What a compaction with an attribute list answers. */
    ghost function Compacts(items: seq<Item>, delta: GState, full: bool): Written
      reads this
      requires Sized() && CommitOk(log, count, items)
    {
      var n, t := ItemsCount(count, items), ItemsTail(tail, items);
      CompactResult(n, Emit(log, items, CompactWindow(0, n)), CompactRecs(log, items, n, t, delta), other.Length,
                    prog, full)
    }

    /**
     * What a commit of an attribute list answers: it depends on what is to be written and on how much room there is.
     */
    ghost function Commits(items: seq<Item>, delta: GState, full: bool): Written
      reads this
      requires Sized() && CommitOk(log, count, items)
    {
      if erased && FitsBehind(off, AppendRecs(log, items, delta), active.Length) then Done
      else Compacts(items, delta, full)
    }

    /** The records of an append. */
    method AppendList(items: seq<Item>, delta: GState) returns (recs: seq<Rec>)
      requires Readable() && ItemsOk(items)
      ensures recs == AppendRecs(log, items, delta)
    {
      hide Flatten, Stored, Encodes, Sound, Shaped, TailOk, Rev, Replay, ItemOk;
      recs := FlattenItems(items);
      if delta != ZERO {
        var stored := GetState();
        recs := recs + [StateRec(XorG(delta, stored))];
      }
    }

    /** The branch of lfs_dir_commit that appends to the block in force; false when the attributes do not fit. */
    method Append(items: seq<Item>, delta: GState, n: nat, t: Tail) returns (ok: bool)
      requires Valid() && CommitOk(log, count, items) && n == ItemsCount(count, items) && t == ItemsTail(tail, items)
      requires AppendRecs(log, items, delta) != [] || off + 8 <= active.Length
      modifies active, `off, `etag, `count, `tail, `log
      ensures active[..old(off)] == old(active[..])[..old(off)]
      ensures ok <==> FitsBehind(old(off), AppendRecs(old(log), items, delta), active.Length)
      ensures ok ==> Took(old(log), items, delta, n, t) && Appended(old(active[..]), AppendRecs(old(log), items, delta))
      ensures !ok ==>
                && off == old(off) && etag == old(etag) && count == old(count) && tail == old(tail)
                && log == old(log) && (ErasedFrom(old(active[..]), off) ==> Valid())
    {
      hide FetchBlock, Encodes, CommitOk, Sound, Flatten, SameEntries, Stored, ItemOk, ItemSound, Shaped, Rev, Replay,
           AppendRecs, Committed, CommitEnd, Advance, Committable, TailOk, ItemsCount, ItemsTail, XorG, Crc, AllCrc,
           Compaction.Harmless, Mdir.Rewritten, Mdir.Chosen, InForce, CompactRecs, Newer, FromLe, FromBe, Xor, Pack,
           Masked, TotalSize, Encode;
      ghost var before, f := active[..], FetchBlock(active[..], prog).found;
      CommitNeeds(log, count, items);
      ValidIsReadable();
      if off + 8 > active.Length {
        return false;
      }
      var recs := AppendList(items, delta);
      AppendSound(log, items, delta);
      var commit := new LfsCommit(active, off, etag);
      ok := WriteCommit(commit, prog, Resume(f), recs);
      AdvanceSize(Resume(f), recs);
      if ok {
        AppendOutcome(before, prog, f, log, items, delta, n, t, Closed(active[..], commit.ptag), commit.off);
        off, etag, count, tail := commit.off, commit.ptag, n, t;
        log := FetchBlock(active[..], prog).found.log;
      } else if ErasedFrom(before, off) {
        SoundIsSized(log);
        GivenUpAppend(before, active[..], prog, recs);
        Settled(before, active[..], prog, off);
      }
    }

    /** The records of a compaction to ids below n, and whether they are to be written. */
    method CompactList(items: seq<Item>, delta: GState, n: nat, t: Tail, full: bool)
      returns (r: Written, recs: seq<Rec>)
      requires Readable() && ItemsOk(items)
      ensures AllOnDisk(log) && recs == CompactRecs(log, items, n, t, delta)
      ensures var size := TotalSize(Emit(log, items, CompactWindow(0, n)));
              r == if !Overfull(n, size, active.Length, prog) then Done
                   else if !full then NeedsSplit
                   else if size > active.Length - 36 then NoSpace else Done
    {
      hide Encodes, Sound, Shaped, TailOk, Rev, Replay, ItemOk, Emit, OnDisk, XorG, AlignUp, GlobalState.Stored;
      CanWalk();
      var whole := ReadLog(active, off, etag, log);
      var out := Traverse.Traverse(whole, items, CompactWindow(0, n));
      r := Done;
      if n > 1 {
        var size := SizeOf(out);
        var room := active.Length - 36;
        if size > Min(room, AlignUp(active.Length / 2, prog)) {
          r := if !full then NeedsSplit else if size > room then NoSpace else Done;
        }
      }
      var stored := GetState();
      var x := XorG(delta, stored);
      recs := out + ((if IsNull(t.pair) then [] else [TailRec(t)]) + (if x == ZERO then [] else [StateRec(x)]));
    }

    /**
     * lfs_dir_compact: rewrites the directory into the other block under the next revision and makes that the active
     * one. blank is what the erased block reads as; full says that no blocks are left for a split.
     */
    method Compact(items: seq<Item>, delta: GState, n: nat, t: Tail, blank: seq<Byte>, full: bool) returns (r: Written)
      requires Readable() && CommitOk(log, count, items) && n == ItemsCount(count, items) && t == ItemsTail(tail, items)
      requires |blank| == other.Length
      modifies this, other
      ensures old(Sized()) && CommitOk(old(log), old(count), items) && r == old(Compacts(items, delta, full))
      ensures r.Done? ==> Shape() && Took(old(log), items, delta, n, t) && Chosen()
      ensures AllOnDisk(old(log)) && ItemsOk(items)
      ensures r.Done? && n > 1 ==>
                var size := TotalSize(Emit(old(log), items, CompactWindow(0, n)));
                size <= old(other.Length) - 36 && (!full ==> size < old(other.Length) / 2 + prog)
      ensures r.Done? ==> active == old(other) && other == old(active) && rev == Next(old(rev))
      ensures erased == old(erased)
      ensures r.Done? ==> prog > 0 && EndsBehind(off, CompactRecs(old(log), items, n, t, delta), prog)
      ensures r.Done? ==>
                && AllOnDisk(old(log)) && ItemsOk(items)
                && Rewritten(CompactRecs(old(log), items, n, t, delta), blank)
      ensures !r.Done? ==>
                && active == old(active) && other == old(other) && rev == old(rev) && off == old(off)
                && etag == old(etag)
                && count == old(count) && tail == old(tail) && log == old(log) && erased == old(erased)
                && active[..] == old(active[..])
      ensures !r.Done? && ErasedFrom(blank, 4) ==> other[..] == old(other[..]) || !Complete(other[..], prog)
    {
      hide FetchBlock, Encodes, CommitOk, Flatten, SameEntries, Stored, Sound, Shaped, Replay, TailOk, Rewritten,
           Chosen, InForce, CompactRecs, ItemsCount, ItemsTail, Next, OnDisk, Emit, TotalSize, AlignUp, Overfull,
           EndsBehind, Complete, Rev;
      CommitNeeds(log, count, items);
      var recs;
      r, recs := CompactList(items, delta, n, t, full);
      HalfFull(n, TotalSize(Emit(log, items, CompactWindow(0, n))), active.Length, prog);
      if r.Done? {
        var ok := Rewrite(items, delta, n, t, blank, recs);
        r := if ok then Done else NoSpace;
      }
    }

    /** The records of a compaction are written to the other block, which becomes the active one. */
    method Rewrite(items: seq<Item>, delta: GState, n: nat, t: Tail, blank: seq<Byte>, recs: seq<Rec>)
      returns (ok: bool)
      requires Readable() && CommitOk(log, count, items) && n == ItemsCount(count, items) && t == ItemsTail(tail, items)
      requires |blank| == other.Length && AllOnDisk(log) && recs == CompactRecs(log, items, n, t, delta)
      modifies this, other
      ensures ok <==> FitsBehind(4, recs, old(other.Length))
      ensures ok ==> Shape() && Took(old(log), items, delta, n, t) && Chosen()
      ensures ok ==> active == old(other) && other == old(active) && rev == Next(old(rev))
      ensures erased == old(erased)
      ensures ok ==> prog > 0 && EndsBehind(off, recs, prog) && Rewritten(recs, blank)
      ensures !ok ==>
                && active == old(active) && other == old(other) && rev == old(rev) && off == old(off)
                && etag == old(etag) && count == old(count) && tail == old(tail) && log == old(log)
                && active[..] == old(active[..])
      ensures !ok && ErasedFrom(blank, 4) ==> !Complete(other[..], prog)
    {
      hide FetchBlock, Encodes, CommitOk, Sound, Flatten, SameEntries, Stored, ItemOk, ItemSound, Shaped, Rev, Replay,
           InForce, CompactRecs, Committed, CommitEnd, Advance, Committable, TailOk, ItemsCount, ItemsTail, XorG, Crc,
           Next, Start, Put, OnDisk, Emit, CompactEnd, TotalSize, AlignUp, Encode, AllCrc, Compaction.Harmless, Pack,
           Masked, Xor, FromLe, FromBe, Overfull;
      CommitNeeds(log, count, items);
      CompactSound(log, items, n, t, delta);
      var newrev := Next(rev);
      var end, tag;
      ok, end, tag := WriteBlank(other, prog, blank, newrev, recs);
      if !ok {
        if ErasedFrom(blank, 4) {
          GivenUpCompaction(blank, newrev, other[..], prog, recs);
        }
        return;
      }
      CompactOutcome(blank, newrev, prog, log, items, delta, n, t, Closed(other[..], tag), end, active[..], rev, tail);
      active, other := other, active;
      rev, off, etag, count, tail := newrev, end, tag, n, t;
      log := FetchBlock(active[..], prog).found.log;
    }

    /**
     * lfs_dir_commit: appends if the block in force may still be programmed and the attributes fit, and compacts
     * otherwise. Either way memory and disk then say the same: the old directory with the attributes applied, and the
     * old stored move state with the delta added.
     */
    method Commit(items: seq<Item>, delta: GState, blank: seq<Byte>, full: bool) returns (r: Written)
      requires Valid() && CommitOk(log, count, items) && |blank| == other.Length
      // a commit of nothing at all to a full block is not made
      requires AppendRecs(log, items, delta) != [] || off + 8 <= active.Length
      modifies this, active, other
      ensures old(Sized()) && CommitOk(old(log), old(count), items) && r == old(Commits(items, delta, full))
      ensures r.Done? ==> Took(old(log), items, delta, ItemsCount(old(count), items), ItemsTail(old(tail), items))
      ensures r.Done? ==> {active, other} == {old(active), old(other)} && (old(Chosen()) ==> Chosen())
      ensures erased == old(erased)
      // only a block that may still be programmed is written in place, and then if there is room
      ensures r.Done? ==>
                (active == old(active) <==>
                   old(erased) && old(off) + TotalSize(AppendRecs(old(log), items, delta)) + 8 <= old(active.Length))
      ensures r.Done? ==>
                var n, t := ItemsCount(old(count), items), ItemsTail(old(tail), items);
                || Appended(old(active[..]), AppendRecs(old(log), items, delta))
                || (n >= 0 && Rewritten(CompactRecs(old(log), items, n, t, delta), blank))
      ensures !r.Done? ==>
                && active == old(active) && other == old(other) && rev == old(rev) && off == old(off)
                && etag == old(etag) && count == old(count) && tail == old(tail) && log == old(log)
                && active[..off] == old(active[..])[..old(off)]
      // where nothing is written the blocks read as erased: the pair is still fetched as it was
      ensures !r.Done? && ErasedFrom(blank, 4) && (erased ==> ErasedFrom(old(active[..]), off)) ==>
                Valid() && (old(Chosen()) ==> Chosen())
    {
      hide FetchBlock, Encodes, CommitOk, Sound, Flatten, SameEntries, Stored, ItemOk, ItemSound, Shaped, Replay,
           InForce, AppendRecs, CompactRecs, ItemsCount, ItemsTail, XorG, FromLe, Rewritten, Appended;
      CommitNeeds(log, count, items);
      ValidIsReadable();
      CanWalk();
      ghost var before, n0 := active[..], off;
      var n, t := FollowItems(items);
      if erased || n >= 0xff {
        var ok := Append(items, delta, n, t);
        SameSlice(before, active[..], 0, 4, n0);
        if ok {
          StillInForce(before, active[..], other[..], prog);
          return Done;
        }
        EncodesFrame(before, active[..], off, etag, log);
        if ErasedFrom(before, off) {
          StillInForce(before, active[..], other[..], prog);
        }
      }
      ghost var chosen, second := Chosen(), other[..];
      r := Compact(items, delta, n, t, blank, full);
      if !r.Done? && ErasedFrom(blank, 4) && Valid() {
        StillOut(active[..], second, other[..], prog);
      }
    }
  }

  /** An erased block is given a revision and one commit; false when the tags do not fit. */
  method WriteBlank(block: array<Byte>, prog: nat, blank: seq<Byte>, rev: Word, recs: seq<Rec>)
    returns (ok: bool, end: nat, tag: Word)
    requires |blank| == block.Length >= 128 && prog > 0 && block.Length % prog == 0 && AllCommittable(recs)
    modifies block
    ensures ok <==> FitsBehind(4, recs, block.Length)
    ensures !ok ==> GivenUp(Header(blank, rev), block[..], 4, BLANK, recs)
    ensures ok ==> Fits(blank, rev, recs, prog) && Closed(block[..], tag) == Compacted(blank, rev, recs, prog)
    ensures ok ==> end == CommitEnd(Advance(Start(Header(blank, rev)), recs).off, prog)
    ensures ok ==> end == CommitEnd(4 + TotalSize(recs), prog)
  {
    hide Committed, CommitEnd, Advance, Committable, Crc, Start, Put;
    Erase(block, blank);
    var commit := new LfsCommit(block, 0, BLANK);
    commit.CommitProg(ToLe(rev));
    HeaderStarts(block[..], blank, rev);
    AdvanceSize(Start(block[..]), recs);
    ok := WriteCommit(commit, prog, Start(block[..]), recs);
    end, tag := commit.off, commit.ptag;
  }

  /** What a fetch needs of a log it finds: tags of the sizes littlefs writes, and counts within a uint16_t. */
  ghost predicate Wellformed(f: Found) { AllSound(f.log) && CountsFit(f.log) && TailOk(f.tail, f.split) }

  /** lfs_dir_fetch into a new lfs_mdir_t; null is LFS_ERR_CORRUPT. */
  method Open(first: array<Byte>, second: array<Byte>, prog: nat) returns (m: Mdir?)
    requires prog > 0 && first != second && first.Length == second.Length >= 128 && first.Length % prog == 0
    requires var d := FetchPair(first[..], second[..], prog); d.Some? ==> Wellformed(d.value.result.found)
    ensures m == null <==> FetchPair(first[..], second[..], prog) == None
    ensures m != null ==>
              var d := FetchPair(first[..], second[..], prog).value;
              && fresh(m) && m.Valid() && m.log == d.result.found.log && m.erased == d.result.erased
              && m.active == (if d.second then second else first) && m.other == (if d.second then first else second)
  {
    hide FetchBlock, CountsFit, Sound, Shaped, Newer, Rev, TailOk, Count;
    var ok, r, rev, off, etag, count, tail, split, erased, best;
    ghost var log;
    ok, r, rev, off, etag, count, tail, split, erased, best, log := FetchDir(first, second, prog, None);
    if !ok {
      return null;
    }
    var block := if r then second else first;
    SoundIsSized(log);
    CountIsReplay(log);
    Settled(block[..], block[..], prog, 4);
    m := new Mdir(prog, block, if r then first else second, rev, off, etag, count, Tail(tail, split), erased, log);
  }

  /** lfs_dir_alloc: a pair not yet on disk; its log is empty, and a compaction will write it. */
  method Alloc(first: array<Byte>, second: array<Byte>, prog: nat) returns (m: Mdir)
    requires prog > 0 && first != second && first.Length == second.Length >= 128 && first.Length % prog == 0
    ensures fresh(m) && m.Readable() && m.log == [] && m.active == first && m.other == second && !m.erased
    ensures m.prog == prog && m.count == 0 && m.tail == Tail(NULL_PAIR, false)
  {
    var rev := ReadRev(first);
    m := new Mdir(prog, first, second, rev, 4, BLANK, 0, Tail(NULL_PAIR, false), false, []);
  }

  /** The tags of one commit and its closing tags; st says where the committer stands. */
  method WriteCommit(commit: LfsCommit, prog: nat, ghost st: State, recs: seq<Rec>) returns (ok: bool)
    requires commit.Valid() && prog > 0 && commit.block.Length % prog == 0 && commit.end + 8 == commit.block.Length
    requires st.off == commit.off && st.ptag == commit.ptag && st.crc == commit.crc && AllCommittable(recs)
    modifies commit, commit.block
    ensures commit.block[..st.off] == old(commit.block[..])[..st.off]
    ensures ok <==> Advance(st, recs).off + 8 <= commit.block.Length
    ensures !ok ==> GivenUp(old(commit.block[..]), commit.block[..], st.off, st.ptag, recs)
    ensures ok ==>
              && commit.off == CommitEnd(Advance(st, recs).off, prog) <= commit.block.Length
              && Closed(commit.block[..], commit.ptag) == Committed(old(commit.block[..]), st, recs, prog)
  {
    hide Crc, Encode, Put, Close, Committed, CommitEnd, Advance, Committable, LastTag;
    ghost var before := commit.block[..];
    AdvanceSize(st, recs);
    EncodeSize(recs, st.ptag);
    ghost var n;
    ok, n := commit.CommitAttrs(recs);
    if ok {
      assert recs[..n] == recs;
      WrittenRecs(before, st, recs, prog, commit.block[..], commit.off, commit.ptag, commit.crc);
      EndFits(commit.off, prog, commit.block.Length);
      ok := commit.CommitCrc(prog);
      CommittedFrame(before, st, recs, prog);
    } else {
      assert WrittenUpTo(before, commit.block[..], st.off, st.ptag, recs, n);
    }
  }

  lemma TailHasPair(r: Rec)
    requires Carried(r) && Type1(r.tag.kind) == TYPE_TAIL
    ensures |r.data| == 8
  {
  }

  /** What holds of any block a fetch finds a commit on; n bytes of it are as before. */
  lemma Settled(before: seq<Byte>, after: seq<Byte>, prog: nat, n: nat)
    requires 4 <= n <= |before| == |after| && prog > 0 && before[..n] == after[..n]
    ensures Rev(after) == Rev(before)
    ensures var g := FetchBlock(after, prog).found; g.off > 0 ==> 4 <= g.off <= |after| && AllShaped(g.log)
  {
    hide FetchBlock, Encodes, FromLe, Shaped;
    SameSlice(before, after, 0, 4, n);
    var g := FetchBlock(after, prog).found;
    FetchedEncodes(after, prog);
    if g.off > 0 {
      EncodesShaped(after, g.off, g.etag, g.log);
      EncodesBounds(after, g.off, g.etag, g.log);
    }
  }

  /** lfs_bd_erase: what an erased block reads as is up to the device. */
  method Erase(block: array<Byte>, blank: seq<Byte>)
    requires |blank| == block.Length
    modifies block
    ensures block[..] == blank
  {
    forall i | 0 <= i < block.Length {
      block[i] := blank[i];
    }
  }

  /** lfs_dir_commit_size over all tags of a traversal. */
  method SizeOf(recs: seq<Rec>) returns (size: nat)
    ensures size == TotalSize(recs)
  {
    size := 0;
    assert recs[..0] == [];
    for i := 0 to |recs|
      invariant size == TotalSize(recs[..i])
    {
      assert recs[..i + 1][..i] == recs[..i];
      size := size + recs[i].tag.DSize();
    }
    assert recs[..|recs|] == recs;
  }

  /** A block holding only a revision, as a fetch starts on it. */
  lemma HeaderStarts(b: seq<Byte>, blank: seq<Byte>, rev: Word)
    requires |blank| >= 4 && b == Put(blank, 0, ToLe(rev))
    ensures |b| == |blank| && Start(b) == State(4, BLANK, Crc(INIT, ToLe(rev)), [], NULL_PAIR, false, NOTHING)
  {
    hide Crc;
    assert b[..4] == b[0..4] == ToLe(rev);
  }

  /** The pair after a compaction, as a fetch sees it: the new block is in force, whatever is left of the old one. */
  lemma CompactOutcome(blank: seq<Byte>, rev: Word, prog: nat, log: seq<Rec>, items: seq<Item>, delta: GState, n: nat,
                       t: Tail, after: Closed, off: nat, old_: seq<Byte>, oldRev: Word, oldTail: Tail)
    requires |blank| >= 4 && prog > 0 && AllSound(log) && AllShaped(log) && ItemsOk(items) && ItemsSound(items)
    requires Compaction.Harmless(items) && n <= 1024 && AllNamed(log + Flatten(items), n)
    requires TailOk(oldTail.pair, oldTail.split) && t == ItemsTail(oldTail, items)
    requires |old_| >= 4 && Rev(old_) == oldRev && rev == Next(oldRev) && AllOnDisk(log)
    requires var recs, b := CompactRecs(log, items, n, t, delta), Put(blank, 0, ToLe(rev));
             && AllCommittable(recs) && off == CommitEnd(Advance(Start(b), recs).off, prog) <= |blank|
             && after == Committed(b, Start(b), recs, prog)
    ensures |after.block| == |blank| && Rev(after.block) == rev && InForce(after.block, old_, prog)
    ensures var g := FetchBlock(after.block, prog).found;
            && g == Found(off, after.ptag, g.log, t.pair, t.split) && 4 <= off && AllSound(g.log) && AllShaped(g.log)
            && TailOk(t.pair, t.split) && Replay(g.log).count == n
            && SameEntries(g.log, log + Flatten(items), n) && Stored(g.log) == XorG(Stored(log), delta)
  {
    hide FetchBlock, Committed, Advance, CompactRecs, Committable, Sound, Shaped, TailOk, Flatten, Stored, XorG, ItemOk,
         ItemSound, ItemsTail, Put, ToLe, FromLe, Next, OnDisk, InForce, AllNamed, Compaction.Harmless, Start,
         CommitEnd, Newer;
    ItemsTailOk(oldTail, items);
    CompactFetched(blank, rev, prog, log, items, delta, n, t);
    Settled(after.block, after.block, prog, 4);
    NextIsNewer(oldRev);
    InForceExactly(after.block, old_, prog);
  }

  lemma StillInForce(before: seq<Byte>, after: seq<Byte>, other: seq<Byte>, prog: nat)
    requires |before| >= 4 && |after| >= 4 && |other| >= 4 && prog > 0
    requires Complete(after, prog) && after[0..4] == before[0..4]
    ensures InForce(before, other, prog) ==> InForce(after, other, prog)
  {
    hide InForce, FetchBlock;
    if InForce(before, other, prog) {
      assert after[..4] == after[0..4] && before[..4] == before[0..4];
      AppendStaysInForce(before, after, other, prog);
    }
  }

  lemma StillOut(block: seq<Byte>, before: seq<Byte>, after: seq<Byte>, prog: nat)
    requires |block| >= 4 && |before| >= 4 && |after| >= 4 && prog > 0
    requires after == before || !Complete(after, prog)
    ensures InForce(block, before, prog) ==> InForce(block, after, prog)
  {
    hide InForce, Complete, Rev;
    InForceExactly(block, before, prog);
    InForceExactly(block, after, prog);
  }

  /** The walk back through a log depends only on the bytes before its end. */
  lemma {:induction false} EncodesFrame(a: seq<Byte>, b: seq<Byte>, off: nat, etag: Word, log: seq<Rec>)
    requires off <= |a| == |b| && a[..off] == b[..off] && Encodes(a, off, etag, log)
    ensures Encodes(b, off, etag, log)
    decreases |log|
  {
    hide FromBe, Xor, Unpack, Masked;
    if log != [] {
      var r := log[|log| - 1];
      var at := off - r.tag.DSize();
      SameSlice(a, b, at, at + 4, off);
      SameSlice(a, b, at + 4, off, off);
      assert a[..at] == a[..off][..at] && b[..at] == b[..off][..at];
      EncodesFrame(a, b, at, Xor(BeAt(a, at), etag), log[..|log| - 1]);
    }
  }

  /** The block after an append, as a fetch sees it. */
  lemma AppendOutcome(before: seq<Byte>, prog: nat, f: Found, log: seq<Rec>, items: seq<Item>, delta: GState, n: nat,
                      t: Tail, after: Closed, off: nat)
    requires |before| >= 4 && prog > 0 && f == FetchBlock(before, prog).found && f.log == log && 4 <= f.off <= |before|
    requires ItemsOk(items) && ItemsSound(items) && AllSound(log) && TailOk(f.tail, f.split)
    requires t == ItemsTail(Tail(f.tail, f.split), items) && Replay(log + Flatten(items)).count == n
    requires AllCommittable(AppendRecs(log, items, delta))
    requires off == CommitEnd(Advance(Resume(f), AppendRecs(log, items, delta)).off, prog) <= |before|
    requires after == Committed(before, Resume(f), AppendRecs(log, items, delta), prog)
    ensures |after.block| == |before| && after.block[..f.off] == before[..f.off] && Rev(after.block) == Rev(before)
    ensures var g := FetchBlock(after.block, prog).found;
            && g == Found(off, after.ptag, g.log, t.pair, t.split) && 4 <= off && AllSound(g.log) && AllShaped(g.log)
            && TailOk(t.pair, t.split) && Replay(g.log).count == n
            && SameEntries(g.log, log + Flatten(items), n) && Stored(g.log) == XorG(Stored(log), delta)
  {
    hide FetchBlock, Committed, Advance, AppendRecs, Committable, Sound, Shaped, TailOk, Flatten, Stored, XorG, ItemOk,
         ItemSound, ItemsTail, Rev;
    AppendFetched(before, prog, f, log, items, delta, n, t);
    ItemsTailOk(Tail(f.tail, f.split), items);
    CommittedFrame(before, Resume(f), AppendRecs(log, items, delta), prog);
    Settled(before, after.block, prog, f.off);
  }

  lemma CommitNeeds(log: seq<Rec>, count: nat, items: seq<Item>)
    requires CommitOk(log, count, items)
    ensures ItemsSound(items) && ItemsOk(items) && Compaction.Harmless(items)
    ensures 0 <= ItemsCount(count, items) < 0xff && Replay(log + Flatten(items)).count == ItemsCount(count, items)
    ensures AllNamed(log + Flatten(items), ItemsCount(count, items))
  {
  }

  /** There is room for the closing tags wherever the attributes may end. */
  lemma EndFits(off: nat, prog: nat, size: nat)
    requires prog > 0 && off + 8 <= size && size % prog == 0
    ensures CommitEnd(off, prog) <= size
  {
    var e := CommitEnd(off, prog);
    var k, q := e / prog, size / prog;
    assert e == prog * k && size == prog * q;
    assert prog * (k - q) == e - size;
    SmallMultiple(prog, k - q);
    Grows(prog, k, q);
  }

  lemma Grows(d: nat, k: int, q: int)
    requires k <= q
    ensures d * k <= d * q
  {
  }

  /** The committer has put the records where a scan stood: closing the block gives the block of that commit. */
  lemma WrittenRecs(before: seq<Byte>, st: State, recs: seq<Rec>, prog: nat, middle: seq<Byte>, off: nat, ptag: Word,
                    crc: Word)
    requires prog > 0 && AllCommittable(recs) && off == st.off + |Encode(recs, st.ptag)| <= |before|
    requires middle == Put(before, st.off, Encode(recs, st.ptag))
    requires ptag == LastTag(recs, st.ptag) && crc == Crc(st.crc, Encode(recs, st.ptag))
    ensures off == Advance(st, recs).off
    ensures CommitEnd(off, prog) <= |before| ==>
              Committed(before, st, recs, prog) == Close(middle, off, ptag, crc, CommitEnd(off, prog))
  {
    hide Encode, Crc, Put, Close;
    AdvanceShape(st, recs);
    AdvanceCrc(st, recs);
  }
}
