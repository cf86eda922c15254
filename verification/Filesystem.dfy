/**
 * The operations that carry the global state: commits, rename and the repair of an unfinished move. A rename between
 * two directories takes two commits; at every point of it a mount finds the entry under exactly one of its names.
 */
module Filesystem {
  import opened Words
  import opened Tags
  import opened Log
  import opened Fetch
  import opened Traverse
  import opened Compaction
  import opened GlobalState
  import opened Conservation
  import opened Contents
  import Torn
  import opened MetadataPair
  import opened Moves

  /** lfs_fs_prepmove for a job, and without one. */
  function Prepared(g: GState, job: Job): GState
    requires job.oldid < NO_ID
  {
    PrepMove(g, Some(job.oldid), job.from)
  }

  function Cleared(g: GState): GState { PrepMove(g, None, NULL_PAIR) }

  function If(cleared: bool, g: GState): GState { if cleared then Cleared(g) else g }

  /** What lies on disk between two commits of a rename: the logs of the two pairs. */
  datatype Snapshot = Snapshot(source: seq<Rec>, target: seq<Rec>)

  /** The global state that a mount finds; rest is what all other pairs store. */
  function FoundState(rest: GState, s: Snapshot): GState { XorG(rest, XorG(Stored(s.source), Stored(s.target))) }

  /** Where an entry is moved from and to. */
  datatype Job = Job(from: Pair, oldid: nat, into: Pair, newid: nat, over: bool, name: Rec, rest: GState)

  /** Does a list delete an entry? */
  predicate HasDelete(items: seq<Item>) { exists i | 0 <= i < |items| :: ItemTag(items[i]).kind == TYPE_DELETE }

  /**
   * A commit that leaves its pair in the directory. One that empties a pair which continues another first drops that
   * pair with a commit of its own, which is not modelled.
   */
  predicate KeepsPair(continues: bool, count: nat, items: seq<Item>) {
    continues && HasDelete(items) ==> ItemsCount(count, items) > 0
  }

  /** A mount shows two directories as they were. */
  ghost predicate ListedBefore(s: Snapshot, s0: Snapshot, n: nat, m: nat, job: Job) {
    var g := FoundState(job.rest, s);
    && (forall id: nat | id < n :: Shown(s.source, HiddenIn(g, job.from), id) == AttrsOf(s0.source, id))
    && (forall id: nat | id < m :: Shown(s.target, HiddenIn(g, job.into), id) == AttrsOf(s0.target, id))
  }

  /** A mount shows the source without the entry, and the target with it under its new name. */
  ghost predicate ListedAfter(s: Snapshot, s0: Snapshot, n: nat, m: nat, job: Job)
    requires n > 0
  {
    var g := FoundState(job.rest, s);
    && (forall id: nat | id < n - 1 ::
          Shown(s.source, HiddenIn(g, job.from), id) == AttrsOf(s0.source, BeforeDelete(id, Some(job.oldid))))
    && (forall id: nat | id < m ::
          Shown(s.target, HiddenIn(g, job.into), id) ==
          RenameShown(s0.target, job.newid, job.over, job.name, s0.source, job.oldid, None, id))
  }

  /**
   * However a mount finds the addresses of the two pairs listed: the order of a pair's blocks changes as it is
   * compacted.
   */
  ghost predicate ShowsBefore(s: Snapshot, s0: Snapshot, n: nat, m: nat, job: Job) {
    forall from, into | SameBlocks(from, job.from) && SameBlocks(into, job.into) ::
      ListedBefore(s, s0, n, m, job.(from := from, into := into))
  }

  ghost predicate ShowsAfter(s: Snapshot, s0: Snapshot, n: nat, m: nat, job: Job)
    requires n > 0
  {
    forall from, into | SameBlocks(from, job.from) && SameBlocks(into, job.into) ::
      ListedAfter(s, s0, n, m, job.(from := from, into := into))
  }

  /** One order stands for all. */
  lemma ShowsEitherWay(s: Snapshot, s0: Snapshot, n: nat, m: nat, job: Job)
    ensures ListedBefore(s, s0, n, m, job) <==> ShowsBefore(s, s0, n, m, job)
    ensures n > 0 ==> (ListedAfter(s, s0, n, m, job) <==> ShowsAfter(s, s0, n, m, job))
  {
    hide AttrsOf, Shown, HiddenIn, RenameShown, FoundState, SameBlocks, ListedBefore, ListedAfter;
    SameItself(job.from);
    SameItself(job.into);
    assert job.(from := job.from, into := job.into) == job;
    forall from, into | SameBlocks(from, job.from) && SameBlocks(into, job.into)
      ensures ListedBefore(s, s0, n, m, job) ==> ListedBefore(s, s0, n, m, job.(from := from, into := into))
      ensures n > 0 && ListedAfter(s, s0, n, m, job) ==> ListedAfter(s, s0, n, m, job.(from := from, into := into))
    {
      ListedOtherwise(s, s0, n, m, job, from, into);
    }
  }

  lemma SameItself(a: Pair)
    ensures SameBlocks(a, a)
  {
  }

  lemma ListedOtherwise(s: Snapshot, s0: Snapshot, n: nat, m: nat, job: Job, from: Pair, into: Pair)
    requires SameBlocks(from, job.from) && SameBlocks(into, job.into)
    ensures ListedBefore(s, s0, n, m, job) ==> ListedBefore(s, s0, n, m, job.(from := from, into := into))
    ensures n > 0 && ListedAfter(s, s0, n, m, job) ==> ListedAfter(s, s0, n, m, job.(from := from, into := into))
  {
    hide AttrsOf, Shown, HiddenIn, RenameShown, FoundState, SameBlocks;
    var g := FoundState(job.rest, s);
    HiddenEitherWay(g, from, job.from);
    HiddenEitherWay(g, into, job.into);
  }

  /** Directories in which a rename can be made. */
  ghost predicate DirOk(log: seq<Rec>, count: nat) {
    AllSound(log) && AllShaped(log) && Replay(log).count == count && count < 0xfe && AllNamed(log, count)
  }

  /** The list of a rename may be committed. */
  lemma RenameCommitOk(log: seq<Rec>, count: nat, src: seq<Rec>, newid: nat, over: bool, name: Rec, oldid: nat,
                       also: Option<nat>)
    requires DirOk(log, count) && AllSound(src) && AllShaped(src) && NameOk(name, newid)
    requires newid <= count - (if over then 1 else 0) && oldid < 0xff && (also.Some? ==> also.value < 0xff)
    requires count + 1 - (if over then 1 else 0) - (if also.Some? then 1 else 0) >= 0
    ensures var items := RenameItems(newid, over, name, src, oldid, also);
            && CommitOk(log, count, items) && Flatten(items) != []
            && ItemsCount(count, items) == count + 1 - (if over then 1 else 0) - (if also.Some? then 1 else 0)
            && forall id: nat ::
                 AttrsOf(log + Flatten(items), id) ==
                 RenameShown(log, newid, over, name, src, oldid, also, id)
  {
    hide Flatten, Replay, NameOk, AllSound, AllShaped, RenameShown, ItemsSound, ItemsOk, AttrsOf, Harmless, OnDisk,
         IsAttr;
    var items := RenameItems(newid, over, name, src, oldid, also);
    RenameSound(newid, over, name, src, oldid, also);
    NameOnDisk(name, newid);
    RenameFlat(newid, over, name, src, oldid, also);
    RenameCount(log, newid, over, name, src, oldid, also);
    RenameItemsCount(count, newid, over, name, src, oldid, also);
    var n := ItemsCount(count, items);
    forall id: nat
      ensures AttrsOf(log + Flatten(items), id) == RenameShown(log, newid, over, name, src, oldid, also, id)
    {
      RenameShows(log, newid, over, name, src, oldid, also, id);
    }
    forall id: nat | id < n ensures HasName(Replay(log + Flatten(items)), id) {
      RenameNamed(log, count, newid, over, name, src, oldid, also, id);
      AttrsHaveName(log + Flatten(items), id);
    }
  }

  lemma AttrsHaveName(log: seq<Rec>, id: nat)
    ensures HasName(Replay(log), id) <==> Slot(TYPE_NAME) in AttrsOf(log, id)
  {
  }

  lemma NameOnDisk(name: Rec, newid: nat)
    requires NameOk(name, newid)
    ensures OnDisk(name)
  {
    NameKey(name.tag.kind);
  }

  lemma RenameNamed(log: seq<Rec>, count: nat, newid: nat, over: bool, name: Rec, src: seq<Rec>, oldid: nat,
                    also: Option<nat>, id: nat)
    requires DirOk(log, count) && newid <= count - (if over then 1 else 0)
    requires id < count + 1 - (if over then 1 else 0) - (if also.Some? then 1 else 0)
    ensures Slot(TYPE_NAME) in RenameShown(log, newid, over, name, src, oldid, also, id)
  {
    hide Movable, AttrsOf, Replay, Sound, Shaped, HasName;
    var j := BeforeDelete(id, also);
    if j != newid {
      var k := BeforeDelete(if newid < j then j - 1 else j, Replaced(newid, over));
      assert HasName(Replay(log), k);
      AttrsHaveName(log, k);
    }
  }

  lemma RenameItemsCount(count: nat, newid: nat, over: bool, name: Rec, src: seq<Rec>, oldid: nat, also: Option<nat>)
    requires NameOk(name, newid)
    ensures ItemsCount(count, RenameItems(newid, over, name, src, oldid, also)) ==
            count + 1 - (if over then 1 else 0) - (if also.Some? then 1 else 0)
  {
    hide NameOk, ItemsCount;
    var items := RenameItems(newid, over, name, src, oldid, also);
    var c1 := if over then count - 1 else count;
    NameKindPlain(name, newid);
    CountStep(count, items[0], items[1..]);
    CountStep(c1, items[1], items[2..]);
    CountStep(c1 + 1, items[2], items[3..]);
    CountStep(c1 + 1, items[3], items[4..]);
    CountStep(c1 + 1, items[4], []);
    assert items == [items[0]] + items[1..] && items[1..] == [items[1]] + items[2..]
      && items[2..] == [items[2]] + items[3..];
    assert items[3..] == [items[3]] + items[4..] && items[4..] == [items[4]] + [];
  }

  /** What one item does to the count. */
  lemma CountStep(count: int, item: Item, rest: seq<Item>)
    ensures ItemsCount(count, []) == count
    ensures ItemsCount(count, [item] + rest) ==
            ItemsCount(if ItemTag(item).kind == TYPE_CREATE then count + 1
                       else if ItemTag(item).kind == TYPE_DELETE then count - 1 else count, rest)
    ensures ItemsCount(count - 1, []) == count - 1 && ItemsCount(count + 1, []) == count + 1
  {
    assert ([item] + rest)[1..] == rest;
  }

  lemma NameKindPlain(name: Rec, newid: nat)
    requires NameOk(name, newid)
    ensures name.tag.kind != TYPE_CREATE && name.tag.kind != TYPE_DELETE
  {
    NameKey(name.tag.kind);
  }

  /** A single delete may be committed. */
  lemma DeleteCommitOk(log: seq<Rec>, count: nat, id: nat)
    requires DirOk(log, count) && id < count
    ensures var items := [DeleteOf(id)];
            && CommitOk(log, count, items) && ItemsCount(count, items) == count - 1
            && Flatten(items) == [Rec(Tag(TYPE_DELETE, id, 0), [])]
  {
    hide AttrsOf, Replay, Flatten, ItemsCount, Harmless;
    var items := [DeleteOf(id)];
    var r := Rec(Tag(TYPE_DELETE, id, 0), []);
    SpliceSound(TYPE_DELETE, id);
    NoTail(id);
    SoundIsOk(items);
    FlattenOptional(Some(id), []);
    FlattenNothing();
    assert [DeleteOf(id)] + [] == items && [r] + [] == [r] && items[1..] == [];
    CountStep(count, DeleteOf(id), []);
    RemovalsFirstIsHarmless(items);
    CountOfDeletes(log, Some(id));
    forall k: nat | k < count - 1 ensures HasName(Replay(log + [r]), k) {
      DeletedShows(log, id, k);
      AttrsHaveName(log + [r], k);
      var b := if id <= k then k + 1 else k;
      assert HasName(Replay(log), b);
      AttrsHaveName(log, b);
    }
  }

  lemma NoTail(id: nat)
    requires id < 1024
    ensures ItemSound(DeleteOf(id))
  {
    SpliceSound(TYPE_DELETE, id);
  }

  // ---- Sums and views ----

  lemma FoundAdds(rest: GState, s: Snapshot, t: Snapshot, d: GState)
    requires (t.source == s.source && Stored(t.target) == XorG(Stored(s.target), d))
          || (t.target == s.target && Stored(t.source) == XorG(Stored(s.source), d))
    ensures FoundState(rest, t) == XorG(FoundState(rest, s), d)
  {
    hide XorG, Stored;
    var a, b := Stored(s.source), Stored(s.target);
    XorGAssociative(a, b, d);
    XorGSymmetric(a, d);
    XorGAssociative(a, d, b);
    XorGSymmetric(d, b);
    XorGAssociative(rest, XorG(a, b), d);
  }

  /** What another pair stores changes by what it carries. */
  lemma RestAdds(others: GState, stored: GState, s: Snapshot, d: GState)
    ensures FoundState(XorG(others, XorG(stored, d)), s) == XorG(FoundState(XorG(others, stored), s), d)
  {
    hide XorG, Stored;
    var x := XorG(Stored(s.source), Stored(s.target));
    XorGAssociative(others, stored, d);
    XorGAssociative(XorG(others, stored), d, x);
    XorGSymmetric(d, x);
    XorGAssociative(XorG(others, stored), x, d);
  }

  lemma ShowsAtFirst(s0: Snapshot, n: nat, m: nat, job: Job)
    requires !HasMove(FoundState(job.rest, s0))
    ensures ListedBefore(s0, s0, n, m, job)
  {
    hide AttrsOf, HasMove;
  }

  /** Between the two commits the old entry is hidden and the new one is there. */
  lemma ShowsHalfway(s0: Snapshot, s: Snapshot, flat: seq<Rec>, n: nat, m: nat, job: Job, g: GState)
    requires s.source == s0.source && n > 0 && job.oldid < NO_ID && !SharesBlock(job.from, job.into)
    requires OnDiskPart(FoundState(job.rest, s)) == OnDiskPart(PrepMove(g, Some(job.oldid), job.from))
    requires SameEntries(s.target, s0.target + flat, m)
    requires forall id: nat :: AttrsOf(s0.target + flat, id) ==
                               RenameShown(s0.target, job.newid, job.over, job.name, s0.source, job.oldid, None, id)
    ensures ShowsMoved(s0, s, n, m, job)
  {
    hide Attrs, Replay, Entry, HasMove, HiddenIn, PrepMove, RenameShown, OnDiskPart, FoundState;
    var f, p := FoundState(job.rest, s), PrepMove(g, Some(job.oldid), job.from);
    PreparedHides(g, Some(job.oldid), job.from, job.into);
    HiddenSame(f, p, job.from);
    HiddenSame(f, p, job.into);
    forall id: nat | id < n - 1
      ensures Shown(s.source, HiddenIn(f, job.from), id) == AttrsOf(s0.source, BeforeDelete(id, Some(job.oldid)))
    {
      HiddenShows(s.source, Some(job.oldid), id);
    }
    forall id: nat | id < m
      ensures Shown(s.target, HiddenIn(f, job.into), id) ==
              RenameShown(s0.target, job.newid, job.over, job.name, s0.source, job.oldid, None, id)
    {
      HiddenShows(s.target, None, id);
      assert AttrsOf(s.target, id) == AttrsOf(s0.target + flat, id);
    }
  }

  /** Once the old entry is deleted there is nothing to hide any more, and the same is shown. */
  lemma ShowsAtLast(s0: Snapshot, s1: Snapshot, s: Snapshot, n: nat, m: nat, job: Job)
    requires n > 0 && ListedAfter(s1, s0, n, m, job) && s1.source == s0.source && s.target == s1.target
    requires HiddenIn(FoundState(job.rest, s1), job.into) == None
    requires !HasMove(FoundState(job.rest, s))
    requires SameEntries(s.source, s0.source + [Rec(Tag(TYPE_DELETE, job.oldid, 0), [])], n - 1)
    ensures ListedAfter(s, s0, n, m, job)
  {
    hide Attrs, Replay, Entry, HasMove, RenameShown, FoundState;
    var f := FoundState(job.rest, s);
    var r := Rec(Tag(TYPE_DELETE, job.oldid, 0), []);
    forall id: nat | id < n - 1
      ensures Shown(s.source, HiddenIn(f, job.from), id) == AttrsOf(s0.source, BeforeDelete(id, Some(job.oldid)))
    {
      HiddenShows(s.source, None, id);
      assert AttrsOf(s.source, id) == AttrsOf(s0.source + [r], id);
      DeletedShows(s0.source, job.oldid, id);
    }
  }

  // ---- Renames that fail ----

  /** Is there an entry with these attributes among those a mount lists? A pending move takes one out. */
  ghost predicate Lists(log: seq<Rec>, count: nat, hidden: Option<nat>, entry: map<Slot, Value>) {
    exists id: nat :: id < count - (if hidden.Some? then 1 else 0) && Shown(log, hidden, id) == entry
  }

  /** What a mount lists are the entries of the directory but for the hidden one. */
  lemma ListsExactly(log: seq<Rec>, count: nat, hidden: Option<nat>, entry: map<Slot, Value>)
    requires hidden.Some? ==> hidden.value < count
    ensures Lists(log, count, hidden, entry) <==>
            exists k: nat :: k < count && hidden != Some(k) && AttrsOf(log, k) == entry
  {
    hide AttrsOf, Shown;
    forall id: nat { HiddenShows(log, hidden, id); }
    if Lists(log, count, hidden, entry) {
      var id: nat :| id < count - (if hidden.Some? then 1 else 0) && Shown(log, hidden, id) == entry;
      assert AttrsOf(log, if hidden.Some? && hidden.value <= id then id + 1 else id) == entry;
    }
    if k: nat :| k < count && hidden != Some(k) && AttrsOf(log, k) == entry {
      var id: nat := if hidden.Some? && hidden.value < k then k - 1 else k;
      assert Shown(log, hidden, id) == entry;
    }
  }

  /** The entry as it was. */
  function OldEntry(s0: Snapshot, job: Job): map<Slot, Value> { AttrsOf(s0.source, job.oldid) }

  /** The entry under its new name. */
  function NewEntry(s0: Snapshot, job: Job): map<Slot, Value> { Renamed(job.name, s0.source, job.oldid) }

  /** No other entry looks like the old one, and none yet like the new one: names are unique in a directory. */
  ghost predicate OnlyOne(s0: Snapshot, n: nat, m: nat, job: Job) {
    && job.oldid < n
    && (forall k: nat | k < n && k != job.oldid :: AttrsOf(s0.source, k) != OldEntry(s0, job))
    && (forall k: nat | k < m :: AttrsOf(s0.target, k) != NewEntry(s0, job))
  }

  /** The directory the entry is moved from, before its delete: the entry is listed unless it is hidden. */
  lemma ListsOld(s0: Snapshot, n: nat, m: nat, job: Job, hidden: Option<nat>)
    requires OnlyOne(s0, n, m, job) && (hidden == None || hidden == Some(job.oldid))
    ensures Lists(s0.source, n, hidden, OldEntry(s0, job)) <==> hidden == None
  {
    hide AttrsOf, Shown;
    if hidden == None {
      HiddenShows(s0.source, hidden, job.oldid);
    } else {
      forall id: nat | id < n - 1 ensures Shown(s0.source, hidden, id) != OldEntry(s0, job) {
        HiddenShows(s0.source, hidden, id);
      }
    }
  }

  /** After the delete it is not. */
  lemma ListsDeleted(s0: Snapshot, s: Snapshot, n: nat, m: nat, job: Job, hidden: Option<nat>)
    requires OnlyOne(s0, n, m, job) && hidden == None
    requires forall id: nat | id < n - 1 ::
               AttrsOf(s.source, id) ==
               AttrsOf(s0.source, BeforeDelete(id, Some(job.oldid)))
    ensures !Lists(s.source, n - 1, hidden, OldEntry(s0, job))
  {
    hide AttrsOf, Shown;
    forall id: nat | id < n - 1 ensures Shown(s.source, hidden, id) != OldEntry(s0, job) {
      HiddenShows(s.source, hidden, id);
    }
  }

  /** The target before the first commit. */
  lemma ListsNoNew(s0: Snapshot, n: nat, m: nat, job: Job, hidden: Option<nat>)
    requires OnlyOne(s0, n, m, job) && hidden == None
    ensures !Lists(s0.target, m, hidden, NewEntry(s0, job))
  {
    hide AttrsOf, Shown, Renamed;
    forall id: nat | id < m ensures Shown(s0.target, hidden, id) != NewEntry(s0, job) {
      HiddenShows(s0.target, hidden, id);
    }
  }

  /** The target after it. */
  lemma ListsNew(s0: Snapshot, s: Snapshot, m: nat, job: Job, hidden: Option<nat>)
    requires job.newid < m && hidden == None
    requires AttrsOf(s.target, job.newid) ==
             RenameShown(s0.target, job.newid, job.over, job.name, s0.source, job.oldid, None, job.newid)
    ensures Lists(s.target, m, hidden, NewEntry(s0, job))
  {
    hide AttrsOf, Shown, Renamed;
    HiddenShows(s.target, hidden, job.newid);
  }

  /** What a mount lists of the entry at the end of a rename, given what the state found on disk hides. */
  lemma Verdict(s0: Snapshot, s: Snapshot, n: nat, m: nat, job: Job, commits: nat, hidden: Option<nat>)
    requires OnlyOne(s0, n, m, job) && (hidden == None || (hidden == Some(job.oldid) && commits < 2))
    requires commits <= 2 && (commits <= 1 ==> s.source == s0.source)
    requires commits == 0 ==> s.target == s0.target
    requires commits >= 1 ==>
               && job.newid < m + (if job.over then 0 else 1)
               && AttrsOf(s.target, job.newid) ==
                  RenameShown(s0.target, job.newid, job.over, job.name, s0.source, job.oldid, None, job.newid)
    requires commits == 2 ==>
               forall id: nat | id < n - 1 :: AttrsOf(s.source, id) ==
                 AttrsOf(s0.source, BeforeDelete(id, Some(job.oldid)))
    ensures Lists(s.source, if commits == 2 then n - 1 else n, hidden, OldEntry(s0, job)) <==>
            commits < 2 && hidden == None
    ensures Lists(s.target, if commits == 0 || job.over then m else m + 1, None, NewEntry(s0, job)) <==> commits > 0
  {
    hide AttrsOf, Shown, Renamed, Lists, OnlyOne, RenameShown;
    OnlyOneHas(s0, n, m, job);
    if commits == 0 {
      ListsNoNew(s0, n, m, job, None);
    } else {
      ListsNew(s0, s, m + (if job.over then 0 else 1), job, None);
    }
    if commits == 2 {
      ListsDeleted(s0, s, n, m, job, hidden);
    } else {
      ListsOld(s0, n, m, job, hidden);
    }
  }

  lemma OnlyOneHas(s0: Snapshot, n: nat, m: nat, job: Job)
    requires OnlyOne(s0, n, m, job)
    ensures job.oldid < n
  {
  }

  /** What lies on disk after the first commit of a rename. */
  lemma AfterHas(s0: Snapshot, s: Snapshot, n: nat, m: nat, job: Job)
    requires n > 0 && ListedAfter(s, s0, n, m, job) && job.newid < m
    requires HiddenIn(FoundState(job.rest, s), job.into) == None
    ensures AttrsOf(s.target, job.newid) ==
            RenameShown(s0.target, job.newid, job.over, job.name, s0.source, job.oldid, None, job.newid)
    ensures HiddenIn(FoundState(job.rest, s), job.from) == None ==>
              forall id: nat | id < n - 1 :: AttrsOf(s.source, id) ==
                AttrsOf(s0.source, BeforeDelete(id, Some(job.oldid)))
  {
    hide AttrsOf, RenameShown, HiddenIn, FoundState;
    HiddenShows(s.target, None, job.newid);
    forall id: nat { HiddenShows(s.source, None, id); }
  }

  lemma MovelessHides(g: GState, pair: Pair)
    ensures !HasMove(g) ==> HiddenIn(g, pair) == None
  {
  }

  // ---- Plain attribute lists ----

  /** The struct with which a file is created: inline, and empty. */
  function EmptyStruct(id: nat): Rec { Rec(Tag(0x201, id, 0), []) }

  function Plains(recs: seq<Rec>): (items: seq<Item>)
    ensures |items| == |recs| && forall i | 0 <= i < |recs| :: items[i] == Plain(recs[i])
  {
    seq(|recs|, i requires 0 <= i < |recs| => Plain(recs[i]))
  }

  /** Records that a plain list may hold. */
  predicate AllPlain(recs: seq<Rec>) {
    forall i | 0 <= i < |recs| :: Carried(recs[i]) && Type1(recs[i].tag.kind) != TYPE_TAIL
  }

  lemma {:induction false} PlainsFlat(recs: seq<Rec>)
    requires AllPlain(recs)
    ensures ItemsSound(Plains(recs)) && ItemsOk(Plains(recs)) && Flatten(Plains(recs)) == recs && Harmless(Plains(recs))
    ensures forall t: Tail :: ItemsTail(t, Plains(recs)) == t
  {
    hide Carried, Type1, Harmless;
    SoundIsOk(Plains(recs));
    RemovalsFirstIsHarmless(Plains(recs));
    if recs != [] {
      assert Plains(recs)[1..] == Plains(recs[1..]);
      PlainsFlat(recs[1..]);
      assert Expand(Plains(recs)[0], recs[0].tag.id) == [recs[0]];
    }
  }

  class Lfs {
    var gstate: GState
    var gdisk: GState
    var gdelta: GState

    constructor (g: GState)
      ensures gstate == gdisk == g && gdelta == ZERO
    {
      gstate, gdisk, gdelta := g, g, ZERO;
    }

    /** Memory accounts for what the pairs store. */
    ghost predicate Accounts(sum: GState)
      reads this
    {
      OnDiskPart(sum) == OnDiskPart(XorG(gdisk, gdelta))
    }

    /** What the first commit of a rename answers: the new entry, with the move prepared. */
    ghost function FirstAnswer(source: Mdir, target: Mdir, job: Job, full: bool): Written
      reads this, source, source.active, source.other, target, target.active, target.other
      requires Ready(source, target, job)
    {
      CommitsFirst(source, target, job);
      target.Commits(RenameItems(job.newid, job.over, job.name, source.log, job.oldid, None),
                     Delta(Prepared(gstate, job), gdisk, gdelta), full)
    }

    /** What the second one answers, after the first: the delete of the old entry, with the move cleared. */
    ghost function SecondAnswer(source: Mdir, target: Mdir, job: Job, full: bool): Written
      reads this, source, source.active, source.other, target, target.active, target.other
      requires Ready(source, target, job)
    {
      CommitsSecond(source, target, job);
      source.Commits([DeleteOf(job.oldid)], Delta(Cleared(Prepared(gstate, job)), Prepared(gstate, job), ZERO), full)
    }

    /** What a commit to a third pair answers after a rename and, if so, the clearing of its move. */
    ghost function NextAnswer(source: Mdir, target: Mdir, third: Mdir, job: Job, items: seq<Item>, full: bool,
                              cleared: bool)
      : Written
      reads this, source, source.active, source.other, target, target.active, target.other, third
      requires Ready(source, target, job) && third.Sized() && CommitOk(third.log, third.count, items)
    {
      ReadySmall(source, target, job);
      var prepared := Prepared(gstate, job);
      var now := if FirstAnswer(source, target, job, full).Done? then Cleared(prepared) else prepared;
      var delta := if !FirstAnswer(source, target, job, full).Done? then Delta(If(cleared, now), gdisk, gdelta)
                   else if !SecondAnswer(source, target, job, full).Done? then Delta(If(cleared, now), prepared, ZERO)
                   else Delta(If(cleared, now), now, ZERO);
      third.Commits(items, delta, full)
    }

    lemma ReadySmall(source: Mdir, target: Mdir, job: Job)
      requires Ready(source, target, job)
      ensures job.oldid < 0xfe && job.oldid < source.count && job.newid <= target.count - (if job.over then 1 else 0)
    {
      DirSound(source.log, source.count);
    }

    lemma CommitsFirst(source: Mdir, target: Mdir, job: Job)
      requires Ready(source, target, job)
      ensures job.oldid < 0xfe && target.Sized()
      ensures CommitOk(target.log, target.count,
              RenameItems(job.newid, job.over, job.name, source.log, job.oldid, None))
    {
      hide CommitOk, Flatten, DirOk, NameOk, HasMove, FoundState, FetchBlock, SharesBlock, RenameShown, AttrsOf,
           ItemsCount;
      DirSound(source.log, source.count);
      RenameCommitOk(target.log, target.count, source.log, job.newid, job.over, job.name, job.oldid, None);
      target.CanWalk();
    }

    lemma CommitsSecond(source: Mdir, target: Mdir, job: Job)
      requires Ready(source, target, job)
      ensures job.oldid < 0xfe && source.Sized() && CommitOk(source.log, source.count, [DeleteOf(job.oldid)])
    {
      hide CommitOk, Flatten, DirOk, NameOk, HasMove, FoundState, FetchBlock, SharesBlock, ItemsCount;
      DirSound(source.log, source.count);
      DeleteCommitOk(source.log, source.count, job.oldid);
      source.CanWalk();
    }

    /** lfs_dir_commit, with the part of the global state that it carries. */
    method CommitDir(d: Mdir, items: seq<Item>, blank: seq<Byte>, full: bool, ghost continues: bool)
      returns (r: Written)
      requires d.Valid() && CommitOk(d.log, d.count, items) && |blank| == d.other.Length && Flatten(items) != []
      requires KeepsPair(continues, d.count, items)
      modifies `gdisk, `gdelta, d, d.active, d.other
      ensures {d.active, d.other} == {old(d.active), old(d.other)}
      ensures old(d.Sized()) && CommitOk(old(d.log), old(d.count), items)
      ensures r == old(d.Commits(items, Delta(gstate, gdisk, gdelta), full))
      ensures r.Done? ==> gdisk == gstate && gdelta == ZERO
      ensures d.erased == old(d.erased)
      ensures r.Done? ==> d.Took(old(d.log), items, Delta(gstate, old(gdisk), old(gdelta)),
                                 ItemsCount(old(d.count), items), ItemsTail(old(d.tail), items))
      ensures r.Done? ==>
                var n, delta := ItemsCount(old(d.count), items), Delta(gstate, old(gdisk), old(gdelta));
                || d.Appended(old(d.active[..]), AppendRecs(old(d.log), items, delta))
                || (n >= 0 && d.Rewritten(CompactRecs(old(d.log), items, n, ItemsTail(old(d.tail), items), delta),
                  blank))
      ensures !r.Done? ==>
                && gdisk == old(gdisk) && gdelta == old(gdelta) && d.log == old(d.log)
                && d.count == old(d.count)
      ensures !r.Done? && Torn.ErasedFrom(blank, 4) && (d.erased ==> Torn.ErasedFrom(old(d.active[..]), d.off)) ==>
                d.Valid() && (old(d.Chosen()) ==> d.Chosen())
    {
      hide FetchBlock, CommitOk, Flatten, SameEntries, Stored, ItemsCount, ItemsTail, XorG, OnDiskPart, KeepsPair,
           CompactRecs, Mdir.Rewritten, Mdir.Appended, Mdir.Shape, Mdir.Chosen, AppendRecs;
      CommitNeeds(d.log, d.count, items);
      NotNothing(d.log, items, Delta(gstate, gdisk, gdelta));
      r := d.Commit(items, Delta(gstate, gdisk, gdelta), blank, full);
      if r.Done? {
        gdisk, gdelta := gstate, ZERO;
      }
    }

    /** The commit of a new entry into the target, with the move prepared in memory. */
    method CommitMove(source: Mdir, target: Mdir, job: Job, blank: seq<Byte>, full: bool) returns (r: Written)
      requires Ready(source, target, job) && |blank| == target.other.Length
      modifies this, target, target.active, target.other
      ensures {target.active, target.other} == {old(target.active), old(target.other)}
      ensures r.Done? ==>
                && target.Valid()
                && ShowsMoved(old(Now(source, target)), Now(source, target), old(source.count), target.count, job)
      ensures r.Done? ==> Accounts(FoundState(job.rest, Now(source, target)))
      ensures r.Done? ==> target.count == old(target.count) + (if job.over then 0 else 1)
      ensures HiddenIn(gstate, job.from) == Some(job.oldid) && HiddenIn(gstate, job.into) == None
      ensures r == old(FirstAnswer(source, target, job, full)) && gstate == Prepared(old(gstate), job)
      ensures if r.Done? then gdisk == gstate && gdelta == ZERO else gdisk == old(gdisk) && gdelta == old(gdelta)
      ensures !r.Done? ==> target.log == old(target.log) && target.count == old(target.count)
      ensures !r.Done? ==> Accounts(FoundState(job.rest, Now(source, target)))
    {
      hide CommitOk, Flatten, SameEntries, Stored, ItemsCount, ItemsTail, XorG, OnDiskPart, PrepMove, HiddenIn, HasMove,
           FoundState, Delta, RenameShown, FetchBlock, Shown, AttrsOf, DirOk, NameOk, ListedAfter, Mdir.Commits,
           Mdir.Appended, Mdir.Rewritten, AppendRecs, CompactRecs;
      CommitsFirst(source, target, job);
      ghost var g, s0, sum := gstate, Now(source, target), FoundState(job.rest, Now(source, target));
      DirSound(source.log, source.count);
      gstate := PrepMove(gstate, Some(job.oldid), job.from);
      PreparedHides(g, Some(job.oldid), job.from, job.into);
      var src := source.ReadAll();
      var items := RenameItems(job.newid, job.over, job.name, src, job.oldid, None);
      RenameCommitOk(target.log, target.count, source.log, job.newid, job.over, job.name, job.oldid, None);
      CommitNeeds(target.log, target.count, items);
      DeltaCancels(sum, gstate, gdisk, gdelta);
      ghost var d := Delta(gstate, gdisk, gdelta);
      r := CommitDir(target, items, blank, full, true);
      if r.Done? {
        FoundAdds(job.rest, s0, Now(source, target), d);
        XorGZeroRight(gdisk);
        ShowsHalfway(s0, Now(source, target), Flatten(items), source.count, target.count, job, g);
      }
    }

    /**
     * The commit that ends a move: the old entry is deleted and the move cleared. So ends a rename, and so
     * lfs_fs_demove repairs one that a power loss cut short.
     */
    method CommitDelete(source: Mdir, oldid: nat, blank: seq<Byte>, full: bool, ghost target: Mdir, ghost job: Job,
                        ghost continues: bool) returns (r: Written)
      requires continues ==> source.count > 1
      requires source != target && {source.active, source.other} !! {target.active, target.other}
      requires source.Valid() && DirOk(source.log, source.count) && oldid < source.count
      requires |blank| == source.other.Length
      requires Accounts(FoundState(job.rest, Now(source, target)))
      modifies this, source, source.active, source.other
      ensures {source.active, source.other} == {old(source.active), old(source.other)}
      ensures r.Done? ==>
                && source.Valid() && !HasMove(FoundState(job.rest, Now(source, target)))
                && SameEntries(source.log, old(source.log) + [Rec(Tag(TYPE_DELETE, oldid, 0), [])],
                   old(source.count) - 1)
                && source.count == old(source.count) - 1
      ensures !HasMove(gstate) && Accounts(FoundState(job.rest, Now(source, target)))
      ensures gstate == Cleared(old(gstate)) && (r.Done? ==> gdisk == gstate && gdelta == ZERO)
      ensures old(source.Sized()) && CommitOk(old(source.log), old(source.count), [DeleteOf(oldid)])
      ensures r == old(source.Commits([DeleteOf(oldid)], Delta(Cleared(gstate), gdisk, gdelta), full))
      ensures !r.Done? ==>
                && source.log == old(source.log) && source.count == old(source.count)
                && gdisk == old(gdisk) && gdelta == old(gdelta)
    {
      hide CommitOk, Flatten, SameEntries, Stored, ItemsCount, ItemsTail, XorG, OnDiskPart, PrepMove, HiddenIn, HasMove,
           FoundState, Delta, FetchBlock, DirOk, Replay, Mdir.Commits, Mdir.Appended, Mdir.Rewritten, AppendRecs,
           CompactRecs;
      source.CanWalk();
      ghost var g, s0 := gstate, Now(source, target);
      gstate := PrepMove(gstate, None, NULL_PAIR);
      PreparedHides(g, None, NULL_PAIR, NULL_PAIR);
      var items := [DeleteOf(oldid)];
      DeleteCommitOk(source.log, source.count, oldid);
      CommitNeeds(source.log, source.count, items);
      DeltaCancels(FoundState(job.rest, s0), gstate, gdisk, gdelta);
      ghost var d := Delta(gstate, gdisk, gdelta);
      r := CommitDir(source, items, blank, full, continues);
      if r.Done? {
        FoundAdds(job.rest, s0, Now(source, target), d);
        XorGZeroRight(gdisk);
        HiddenSame(FoundState(job.rest, Now(source, target)), gstate, NULL_PAIR);
      }
    }

    /**
     * lfs_rawrename of a file into another directory. trace is what lies on disk at the start and after each commit: a
     * power loss at any moment leaves one of these, and a mount then shows both directories as before, or both as
     * after, in whichever order it finds the addresses of either pair listed; never both names, never neither.
     */
    method Rename(source: Mdir, target: Mdir, job: Job, blank: seq<Byte>, full: bool, ghost continues: bool)
      returns (r: Written, ghost trace: seq<Snapshot>)
      requires Ready(source, target, job) && |blank| == target.other.Length == source.other.Length
      requires continues ==> source.count > 1
      modifies this, source, source.active, source.other, target, target.active, target.other
      ensures 1 <= |trace| <= 3 && trace[0] == old(Now(source, target)) && trace[|trace| - 1] == Now(source, target)
      ensures ShowsBefore(trace[0], trace[0], old(source.count), old(target.count), job)
      ensures forall i | 1 <= i < |trace| ::
                ShowsAfter(trace[i], trace[0], old(source.count), old(target.count) + (if job.over then 0 else 1), job)
      ensures r.Done? <==> |trace| == 3
      ensures r.Done? ==> !HasMove(FoundState(job.rest, trace[2]))
      ensures |trace| == 1 <==> !old(FirstAnswer(source, target, job, full)).Done?
      ensures |trace| > 1 ==> (|trace| == 3 <==> old(SecondAnswer(source, target, job, full)).Done?)
      // a failing first commit leaves the move prepared in memory, a failing second one leaves it cleared there
      ensures HiddenIn(gstate, job.from) == (if |trace| == 1 then Some(job.oldid) else None)
      ensures HiddenIn(gstate, job.into) == None
      ensures var f := FoundState(job.rest, trace[|trace| - 1]);
              && Accounts(f) && HiddenIn(f, job.from) == (if |trace| == 2 then Some(job.oldid) else None)
              && HiddenIn(f, job.into) == None
      ensures job.oldid < 0xfe
      ensures gstate == if |trace| == 1 then Prepared(old(gstate), job) else Cleared(Prepared(old(gstate), job))
      ensures gdisk == if |trace| == 1 then old(gdisk) else if |trace| == 2 then Prepared(old(gstate), job) else gstate
      ensures gdelta == if |trace| == 1 then old(gdelta) else ZERO
      ensures |trace| <= 2 ==> source.log == old(source.log) && source.count == old(source.count)
      ensures |trace| == 3 ==> source.count == old(source.count) - 1
      ensures |trace| == 1 ==> target.log == old(target.log)
      ensures target.count == old(target.count) + (if |trace| == 1 || job.over then 0 else 1)
    {
      hide CommitOk, Flatten, SameEntries, Stored, XorG, OnDiskPart, HiddenIn, HasMove, FoundState, FetchBlock, DirOk,
           NameOk, ListedBefore, ListedAfter, Mdir.Shape, SharesBlock, Mdir.Commits, PrepMove, Delta, ItemsCount,
           ShowsBefore, ShowsAfter;
      CommitsFirst(source, target, job);
      CommitsSecond(source, target, job);
      ghost var s0, n, m := Now(source, target), source.count, target.count + (if job.over then 0 else 1);
      ShowsAtFirst(s0, source.count, target.count, job);
      ShowsEitherWay(s0, s0, source.count, target.count, job);
      MovelessHides(FoundState(job.rest, s0), job.from);
      MovelessHides(FoundState(job.rest, s0), job.into);
      trace := [s0];
      r := CommitMove(source, target, job, blank, full);
      if !r.Done? {
        return;
      }
      ghost var s1 := Now(source, target);
      ShowsEitherWay(s1, s0, n, m, job);
      trace := trace + [s1];
      r := CommitDelete(source, job.oldid, blank, full, target, job, continues);
      MovelessHides(gstate, job.from);
      MovelessHides(gstate, job.into);
      if !r.Done? {
        return;
      }
      MovelessHides(FoundState(job.rest, Now(source, target)), job.from);
      MovelessHides(FoundState(job.rest, Now(source, target)), job.into);
      ShowsAtLast(s0, s1, Now(source, target), n, m, job);
      ShowsEitherWay(Now(source, target), s0, n, m, job);
      trace := trace + [Now(source, target)];
    }

    /**
     * The commit to a third pair: if it goes through, a mount finds the state that memory has. s is what others say.
     */
    method CommitThird(third: Mdir, items: seq<Item>, blank: seq<Byte>, full: bool, cleared: bool,
                       ghost others: GState, ghost s: Snapshot, ghost job: Job)
      returns (r: Written)
      requires third.Valid() && CommitOk(third.log, third.count, items) && Flatten(items) != []
      requires KeepsPair(true, third.count, items) && |blank| == third.other.Length
      requires Accounts(FoundState(XorG(others, Stored(third.log)), s))
      modifies this, third, third.active, third.other
      ensures old(third.Sized()) && CommitOk(old(third.log), old(third.count), items)
      ensures r == old(third.Commits(items, Delta(If(cleared, gstate), gdisk, gdelta), full))
      ensures !r.Done? ==> third.log == old(third.log)
      ensures var after := FoundState(XorG(others, Stored(third.log)), s);
              r.Done? ==>
                && HiddenIn(after, job.from) == (if cleared then None else HiddenIn(old(gstate), job.from))
                && HiddenIn(after, job.into) == (if cleared then None else HiddenIn(old(gstate), job.into))
    {
      hide CommitOk, Flatten, SameEntries, Stored, XorG, OnDiskPart, HiddenIn, HasMove, FoundState, FetchBlock,
           KeepsPair, PrepMove, Delta, ItemsCount, ItemsTail, Mdir.Commits, Mdir.Shape, Mdir.Appended, Mdir.Rewritten,
           AppendRecs, CompactRecs;
      third.CanWalk();
      ghost var stored, f := Stored(third.log), FoundState(XorG(others, Stored(third.log)), s);
      if cleared {
        PreparedHides(gstate, None, NULL_PAIR, job.from);
        PreparedHides(gstate, None, NULL_PAIR, job.into);
        MovelessHides(PrepMove(gstate, None, NULL_PAIR), job.from);
        MovelessHides(PrepMove(gstate, None, NULL_PAIR), job.into);
        gstate := PrepMove(gstate, None, NULL_PAIR);
      }
      ghost var d := Delta(gstate, gdisk, gdelta);
      DeltaCancels(f, gstate, gdisk, gdelta);
      r := CommitDir(third, items, blank, full, true);
      if r.Done? {
        RestAdds(others, stored, s, d);
        HiddenSame(FoundState(XorG(others, Stored(third.log)), s), gstate, job.from);
        HiddenSame(FoundState(XorG(others, Stored(third.log)), s), gstate, job.into);
      }
    }

    /**
     * A rename whose commits may fail, and the commit to any third pair that comes next. cleared says that something
     * clears the prepared move before that commit, as another rename does. Exactly if the first commit finds no room,
     * the move is not cleared and the third pair has room, a mount lists the entry under neither name; exactly if the
     * first commit finds room, the second one does not and the third pair does, it lists it under both. Whether a
     * commit finds room depends on the state before all of them: see FirstAnswer, SecondAnswer and NextAnswer.
     */
    method RenameThenCommit(source: Mdir, target: Mdir, third: Mdir, job: Job, items: seq<Item>, blank: seq<Byte>,
                            full: bool, cleared: bool, ghost continues: bool, ghost others: GState)
      returns (r: Written, ghost commits: nat)
      requires Ready(source, target, job) && |blank| == target.other.Length == source.other.Length == third.other.Length
      requires OnlyOne(Now(source, target), source.count, target.count, job) && (continues ==> source.count > 1)
      requires third != source && third != target
      requires {third.active, third.other} !! {source.active, source.other, target.active, target.other}
      requires third.Valid() && CommitOk(third.log, third.count, items) && Flatten(items) != []
      requires KeepsPair(true, third.count, items)
      requires job.rest == XorG(others, Stored(third.log))
      // a directory that has to be split is written differently
      requires FirstAnswer(source, target, job, full) != NeedsSplit
      requires FirstAnswer(source, target, job, full).Done? ==> SecondAnswer(source, target, job, full) != NeedsSplit
      requires third.Sized() && NextAnswer(source, target, third, job, items, full, cleared) != NeedsSplit
      modifies this, source, source.active, source.other, target, target.active, target.other, third, third.active,
               third.other
      ensures commits == if !old(FirstAnswer(source, target, job, full)).Done? then 0
                         else if !old(SecondAnswer(source, target, job, full)).Done? then 1 else 2
      ensures old(third.Sized()) && CommitOk(old(third.log), old(third.count), items)
      ensures r == old(NextAnswer(source, target, third, job, items, full, cleared))
      ensures var s0, f := old(Now(source, target)), FoundState(XorG(others, Stored(third.log)), Now(source, target));
              var asOld := Lists(source.log, source.count, HiddenIn(f, job.from), OldEntry(s0, job));
              var asNew := Lists(target.log, target.count, HiddenIn(f, job.into), NewEntry(s0, job));
              var first := old(FirstAnswer(source, target, job, full)).Done?;
              var second := old(SecondAnswer(source, target, job, full)).Done?;
              var next := old(NextAnswer(source, target, third, job, items, full, cleared)).Done?;
              && (!asOld && !asNew <==> !first && !cleared && next)
              && (asOld && asNew <==> first && !second && next)
    {
      hide CommitOk, Flatten, SameEntries, Stored, XorG, OnDiskPart, HiddenIn, HasMove, FoundState, FetchBlock, DirOk,
           NameOk, Lists, ListedBefore, ListedAfter, Mdir.Shape, SharesBlock, OnlyOne, KeepsPair, PrepMove, RenameShown,
           Delta, ItemsCount, ItemsTail, Mdir.Commits, FirstAnswer, SecondAnswer, Mdir.Valid, Ready, ShowsBefore,
           ShowsAfter;
      ReadySmall(source, target, job);
      ghost var s0, n, m := Now(source, target), source.count, target.count;
      ghost var trace;
      r, trace := Rename(source, target, job, blank, full, continues);
      commits := |trace| - 1;
      ghost var s := Now(source, target);
      r := CommitThird(third, items, blank, full, cleared, others, s, job);
      ghost var after := FoundState(XorG(others, Stored(third.log)), s);
      if commits > 0 {
        ShowsEitherWay(s, s0, n, if job.over then m else m + 1, job);
        AfterHas(s0, s, n, if job.over then m else m + 1, job);
      }
      Verdict(s0, s, n, m, job, commits, HiddenIn(after, job.from));
    }

    /**
     * lfs_fs_demove: if the disk says that a move is pending in a directory, its old entry is deleted. What is stored
     * is then what was shown. The other pairs store rest and what target does.
     */
    method Demove(source: Mdir, blank: seq<Byte>, full: bool, ghost target: Mdir, ghost job: Job, ghost continues: bool)
      returns (r: Written)
      requires continues ==> source.count > 1
      requires source != target && {source.active, source.other} !! {target.active, target.other}
      requires source.Valid() && DirOk(source.log, source.count) && |blank| == source.other.Length
      requires Accounts(FoundState(job.rest, Now(source, target))) && gdelta == ZERO
      requires HasMove(gdisk) ==> HiddenIn(gdisk, job.from).Some? && HiddenIn(gdisk, job.from).value < source.count
      modifies this, source, source.active, source.other
      ensures r.Done? ==>
                var hidden := HiddenIn(FoundState(job.rest, old(Now(source, target))), job.from);
                && source.Valid() && !HasMove(FoundState(job.rest, Now(source, target)))
                && source.count == old(source.count) - (if hidden.Some? then 1 else 0)
                && forall id: nat | id < source.count :: AttrsOf(source.log, id) == Shown(old(source.log), hidden, id)
      ensures !HasMove(old(gdisk)) ==> r.Done?
      ensures HasMove(old(gdisk)) ==>
                var items := [DeleteOf(Unpack(old(gdisk.tag)).id)];
                && old(source.Sized()) && CommitOk(old(source.log), old(source.count), items)
                && r == old(source.Commits(items, Delta(Cleared(gstate), gdisk, gdelta), full))
      ensures !r.Done? ==> source.log == old(source.log)
    {
      hide CommitOk, Flatten, Stored, XorG, OnDiskPart, PrepMove, HiddenIn, HasMove, FoundState, FetchBlock, DirOk,
           AttrsOf, Mdir.Shape, Mdir.Commits, Delta, Cleared;
      ghost var g, log0, n := FoundState(job.rest, Now(source, target)), source.log, source.count;
      XorGZeroRight(gdisk);
      HiddenSame(g, gdisk, job.from);
      HiddenNeedsMove(gdisk, job.from);
      if !HasMove(gdisk) {
        return Done;
      }
      var moveid := Unpack(gdisk.tag).id;
      r := CommitDelete(source, moveid, blank, full, target, job, continues);
      if r.Done? {
        Settled(source, log0, moveid, n);
      }
    }

    lemma Settled(d: Mdir, log0: seq<Rec>, moveid: nat, n: nat)
      requires d.Valid() && n > 0 && SameEntries(d.log, log0 + [Rec(Tag(TYPE_DELETE, moveid, 0), [])], n - 1)
      ensures d.count == n - 1 && forall id: nat | id < d.count :: AttrsOf(d.log, id) == Shown(log0, Some(moveid), id)
    {
      hide FetchBlock, Attrs, Replay;
    }

    /**
     * lfs_rawrename of a file within one pair: a single commit. The entry moves, and everything else stays; see
     * RenameWithinMoves.
     */
    method RenameWithin(d: Mdir, newid: nat, over: bool, name: Rec, oldid: nat, blank: seq<Byte>, full: bool)
      returns (r: Written)
      requires d.Valid() && DirOk(d.log, d.count) && oldid < d.count && NameOk(name, newid) && |blank| == d.other.Length
      requires newid <= d.count - (if over then 1 else 0) && (over ==> newid != oldid)
      modifies this, d, d.active, d.other
      ensures r.Done? ==>
                && d.Valid() && d.count == old(d.count) - (if over then 1 else 0)
                && forall id: nat | id < d.count ::
                     AttrsOf(d.log, id) ==
                     RenameShown(old(d.log), newid, over, name, old(d.log), oldid, Some(ShiftedId(newid, over, oldid)),
                       id)
      ensures var items := RenameItems(newid, over, name, old(d.log), oldid, Some(ShiftedId(newid, over, oldid)));
              && old(d.Sized()) && CommitOk(old(d.log), old(d.count), items)
              && r == old(d.Commits(items, Delta(gstate, gdisk, gdelta), full))
      ensures !r.Done? ==> d.log == old(d.log)
    {
      hide CommitOk, Flatten, Stored, ItemsCount, ItemsTail, XorG, OnDiskPart, FetchBlock, DirOk, NameOk, RenameShown,
           AttrsOf, Mdir.Shape, SameEntries, Mdir.Commits, Delta, Mdir.Appended, Mdir.Rewritten, AppendRecs,
           CompactRecs;
      DirSound(d.log, d.count);
      var newoldid := oldid;
      if !over && newid <= newoldid {
        newoldid := newoldid + 1;
      }
      var src := d.ReadAll();
      var items := RenameItems(newid, over, name, src, oldid, Some(newoldid));
      RenameCommitOk(d.log, d.count, d.log, newid, over, name, oldid, Some(newoldid));
      CommitNeeds(d.log, d.count, items);
      ghost var all := d.log + Flatten(items);
      r := CommitDir(d, items, blank, full, true);
      if r.Done? {
        SameShown(d.log, all, d.count);
      }
    }

    /** Both directories are as their pairs say, no move is pending, and the job can be done. */
    ghost predicate Ready(source: Mdir, target: Mdir, job: Job)
      reads this, source, source.active, source.other, target, target.active, target.other
    {
      && source != target && {source.active, source.other} !! {target.active, target.other}
      && source.Valid() && target.Valid() && DirOk(source.log, source.count) && DirOk(target.log, target.count)
      && !SharesBlock(job.from, job.into) && job.oldid < source.count && NameOk(job.name, job.newid)
      && job.newid <= target.count - (if job.over then 1 else 0)
      && !HasMove(FoundState(job.rest, Now(source, target))) && Accounts(FoundState(job.rest, Now(source, target)))
    }

    ghost function Now(source: Mdir, target: Mdir): Snapshot
      reads source, target
    {
      Snapshot(source.log, target.log)
    }
  }

  /** The state between the two commits. */
  ghost predicate ShowsMoved(s0: Snapshot, s: Snapshot, n: nat, m: nat, job: Job) {
    && n > 0 && s.source == s0.source && ListedAfter(s, s0, n, m, job) && HasMove(FoundState(job.rest, s))
    && HiddenIn(FoundState(job.rest, s), job.from) == Some(job.oldid)
    && HiddenIn(FoundState(job.rest, s), job.into) == None
  }

  lemma HiddenNeedsMove(g: GState, pair: Pair)
    ensures HiddenIn(g, pair).Some? ==> HasMove(g) && HiddenIn(g, pair).value == Unpack(g.tag).id
  {
  }

  lemma SameShown(after: seq<Rec>, before: seq<Rec>, n: nat)
    requires SameEntries(after, before, n)
    ensures forall id: nat | id < n :: AttrsOf(after, id) == AttrsOf(before, id)
  {
  }

  lemma DirSound(log: seq<Rec>, count: nat)
    requires DirOk(log, count)
    ensures AllSound(log) && AllShaped(log) && count < 0xfe
  {
  }

  lemma NotNothing(log: seq<Rec>, items: seq<Item>, delta: GState)
    requires ItemsOk(items) && Flatten(items) != []
    ensures AppendRecs(log, items, delta) != []
  {
  }
}
