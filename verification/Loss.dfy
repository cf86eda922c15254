/**
 * A rename that loses an entry, from blank blocks to the loss: three directories of one file each, the target so full
 * of a user attribute that the new entry does not fit, and a file sync in the third.
 */
module Loss {
  import opened Words
  import opened Tags
  import opened Log
  import opened Fetch
  import opened Commit
  import opened Lookup
  import opened Traverse
  import opened Compaction
  import opened GlobalState
  import opened Conservation
  import opened Contents
  import opened MetadataPair
  import opened Moves
  import opened Filesystem

  // ---- Sizes ----

  /** A walk back through a log ends where the log begins. */
  lemma {:induction false} EncodesSize(block: seq<Byte>, off: nat, etag: Word, log: seq<Rec>)
    requires off <= |block| && Encodes(block, off, etag, log)
    ensures off == 4 + TotalSize(log)
    decreases |log|
  {
    hide Xor, Unpack, Masked, FromBe;
    if log != [] {
      var d := log[|log| - 1].tag.DSize();
      EncodesSize(block, off - d, Xor(BeAt(block, off - d), etag), log[..|log| - 1]);
    }
  }

  lemma KeepSize(r: Rec, later: seq<Rec>, w: Window)
    requires AllOnDisk(later) && w.Valid()
    ensures TotalSize(Keep(r, later, w)) <= r.tag.DSize()
  {
    hide Window.Wants, Filter, OnDisk;
    FilterKeepsFields(r.tag, later);
    if Keep(r, later, w) != [] {
      assert Keep(r, later, w)[..0] == [];
    }
  }

  /** A traversal of a log writes no more than is there. */
  lemma {:induction false} EmitLogSize(log: seq<Rec>, later: seq<Rec>, w: Window)
    requires AllOnDisk(log) && AllOnDisk(later) && w.Valid()
    ensures TotalSize(EmitLog(log, later, w)) <= TotalSize(log)
  {
    hide Keep, OnDisk;
    if log != [] {
      EmitLogSize(log[1..], later, w);
      KeepSize(log[0], log[1..] + later, w);
      TotalConcat(Keep(log[0], log[1..] + later, w), EmitLog(log[1..], later, w));
      ConsSize(log[0], log[1..]);
    }
  }

  lemma ConsSize(r: Rec, rest: seq<Rec>)
    ensures TotalSize([r] + rest) == r.tag.DSize() + TotalSize(rest)
    ensures forall log: seq<Rec> | log != [] && log[0] == r && log[1..] == rest ::
              TotalSize(log) == TotalSize([r] + rest)
  {
    TotalConcat([r], rest);
    assert [r][..0] == [];
    forall log: seq<Rec> | log != [] && log[0] == r && log[1..] == rest ensures log == [r] + rest {
    }
  }

  /** A value of an entry was written by some record, and took its room. */
  lemma {:induction false} FinalSize(log: seq<Rec>, id: nat, key: Slot)
    ensures Final(log, id, key).Some? && !Final(log, id, key).value.Deleted() ==>
              TotalSize(log) >= 4 + Final(log, id, key).value.size
  {
    hide Track, IsAttr, Key;
    if log != [] {
      FinalSize(log[1..], id, key);
      ConsSize(log[0], log[1..]);
    }
  }

  lemma {:induction false} FinalSizes(log: seq<Rec>, id: nat, a: Slot, b: Slot)
    requires a != b && Final(log, id, a).Some? && Final(log, id, b).Some?
    requires !Final(log, id, a).value.Deleted() && !Final(log, id, b).value.Deleted()
    ensures TotalSize(log) >= 8 + Final(log, id, a).value.size + Final(log, id, b).value.size
  {
    hide Track, IsAttr, Key, TotalSize;
    if log != [] {
      ConsSize(log[0], log[1..]);
      FinalSize(log[1..], id, a);
      FinalSize(log[1..], id, b);
      if Final(log[1..], id, a).Some? && Final(log[1..], id, b).Some? {
        FinalSizes(log[1..], id, a, b);
      }
    }
  }

  /** Two attributes of an entry take their room both. */
  lemma AttrSizes(log: seq<Rec>, id: nat, a: Slot, b: Slot)
    requires a != b && a in Attrs(Entry(Replay(log), id)) && b in Attrs(Entry(Replay(log), id))
    ensures TotalSize(log) >= 8 + Attrs(Entry(Replay(log), id))[a].size + Attrs(Entry(Replay(log), id))[b].size
  {
    hide Final, Attrs, Replay, Entry, TotalSize;
    AttrsHave(log, id, a);
    AttrsHave(log, id, b);
    FinalSizes(log, id, a, b);
  }

  // ---- What plain attribute lists take ----

  /** A plain list is written as it is, at most. */
  lemma {:induction false} PlainsSize(recs: seq<Rec>, w: Window)
    requires AllPlain(recs) && w.Valid()
    ensures ItemsOk(Plains(recs)) && TotalSize(EmitItems(Plains(recs), w)) <= TotalSize(recs)
  {
    hide Carried, Type1, Keep, KeepItem;
    PlainsFlat(recs);
    if recs != [] {
      var items := Plains(recs);
      assert items[1..] == Plains(recs[1..]);
      PlainsFlat(recs[1..]);
      PlainsSize(recs[1..], w);
      CarriedOnDisk(recs);
      PlainItemIsRecord(recs[0], recs[1..], w);
      KeepSize(recs[0], recs[1..], w);
      TotalConcat(KeepItem(items[0], recs[1..], w), EmitItems(items[1..], w));
      ConsSize(recs[0], recs[1..]);
    }
  }

  lemma CarriedOnDisk(recs: seq<Rec>)
    requires AllPlain(recs)
    ensures AllOnDisk(recs)
  {
  }

  /** What is written besides the attributes, if there is no tail. */
  lemma EndSize(log: seq<Rec>, delta: GState)
    ensures TotalSize(CompactEnd(log, Tail(NULL_PAIR, false), delta)) <= 16
    ensures delta == Stored(log) == ZERO ==> CompactEnd(log, Tail(NULL_PAIR, false), delta) == []
  {
    hide XorG, Stored, StateBytes;
    assert IsNull(NULL_PAIR);
    var x := XorG(delta, Stored(log));
    assert [StateRec(x)][..0] == [];
    XorGZero(ZERO);
  }

  /** How much a compaction of a log and a plain list writes. */
  lemma CompactSize(log: seq<Rec>, recs: seq<Rec>, n: nat, delta: GState)
    requires AllOnDisk(log) && AllPlain(recs)
    ensures ItemsOk(Plains(recs))
    ensures TotalSize(CompactRecs(log, Plains(recs), n, Tail(NULL_PAIR, false), delta)) <=
            TotalSize(log) + TotalSize(recs) + 16
    ensures delta == Stored(log) == ZERO ==>
              TotalSize(CompactRecs(log, Plains(recs), n, Tail(NULL_PAIR, false), delta)) <=
              TotalSize(log) + TotalSize(recs)
  {
    hide CompactEnd, EmitLog, EmitItems, Flatten, Stored;
    var w := CompactWindow(0, n);
    PlainsFlat(recs);
    CarriedOnDisk(recs);
    EmitLogSize(log, Flatten(Plains(recs)), w);
    PlainsSize(recs, w);
    EndSize(log, delta);
    var a, b, c := EmitLog(log, Flatten(Plains(recs)), w), EmitItems(Plains(recs), w),
      CompactEnd(log, Tail(NULL_PAIR, false), delta);
    TotalConcat(a, b);
    TotalConcat(a + b, c);
  }

  // ---- Directories of one entry ----

  const CREATE := Rec(Tag(TYPE_CREATE, 0, 0), [])

  /** A name and further attributes of entry 0. */
  ghost predicate EntryOk(name: Rec, rest: seq<Rec>) {
    && NameOk(name, 0) && AllUnder(rest, 0) && AllPlain(rest)
    && forall i | 0 <= i < |rest| :: Key(rest[i].tag.kind) != Slot(TYPE_NAME) && Type1(rest[i].tag.kind) != TYPE_NAME
  }

  function EntryRecs(name: Rec, rest: seq<Rec>): seq<Rec> { [CREATE, name] + rest }

  /** The attributes of the entry. */
  function EntryAttrs(name: Rec, rest: seq<Rec>): map<Slot, Value> {
    Attrs(ValuesOf(rest))[Slot(TYPE_NAME) := ValueOf(name)]
  }

  /** The list that makes such a directory may be committed. */
  lemma EntryCommits(name: Rec, rest: seq<Rec>)
    requires EntryOk(name, rest)
    ensures AllPlain(EntryRecs(name, rest)) && ItemsSound(Plains(EntryRecs(name, rest)))
    ensures CommitOk([], 0, Plains(EntryRecs(name, rest))) && ItemsCount(0, Plains(EntryRecs(name, rest))) == 1
    ensures AttrsOf([] + EntryRecs(name, rest), 0) == EntryAttrs(name, rest)
  {
    hide Attrs, Replay, Key, IsAttr, NameOk, Carried, Type1, Harmless, ItemsCount, ItemSound, Apply;
    var recs := EntryRecs(name, rest);
    NameSound(name, 0);
    SpliceSound(TYPE_CREATE, 0);
    NameHasId(name, 0);
    PlainsFlat(recs);
    EntryCounts(name, rest);
    var a := [] + [CREATE];
    var b := a + [name];
    assert [] + recs == b + rest == recs;
    CreatedShows([], 0, 0);
    OneWritten(a, name, 0);
    WrittenUnder(b, rest, 0, 0);
    assert [] + [ValueOf(name)] == [ValueOf(name)];
    NameAndMoved(ValueOf(name), ValuesOf(rest));
    CountOfCreate([], 0);
    EmptyCount();
    ReplaySnoc(a, name);
    CountOfAttr(Replay(a), name);
    CountOfMoved(b, rest, 0);
    AttrsHaveName(recs, 0);
  }

  lemma EmptyCount()
    ensures Replay([]).count == 0
  {
  }

  lemma EntryCounts(name: Rec, rest: seq<Rec>)
    requires EntryOk(name, rest)
    ensures ItemsCount(0, Plains(EntryRecs(name, rest))) == 1
  {
    hide ItemsCount, Carried, Key, Type1, IsAttr, NameOk, AllPlain, AllUnder, Plains;
    NameKindPlain(name, 0);
    assert [CREATE, name] + rest == [CREATE] + ([name] + rest);
    PlainsCons(CREATE, [name] + rest);
    PlainsCons(name, rest);
    CountStep(0, Plain(CREATE), Plains([name] + rest));
    CountStep(1, Plain(name), Plains(rest));
    UnderCounts(1, rest);
  }

  lemma PlainsCons(r: Rec, rest: seq<Rec>)
    ensures Plains([r] + rest) == [Plain(r)] + Plains(rest)
  {
  }

  lemma {:induction false} UnderCounts(count: int, rest: seq<Rec>)
    requires AllUnder(rest, 0)
    ensures ItemsCount(count, Plains(rest)) == count
  {
    hide IsAttr;
    if rest != [] {
      AttrIsNoSplice(rest[0]);
      assert Plains(rest)[1..] == Plains(rest[1..]);
      UnderCounts(count, rest[1..]);
    }
  }

  const BLANK_BLOCK := seq(128, _ => Byte(0xff))

  /** Makes a directory of one entry on two blocks of 128 bytes. */
  method NewDir(name: Rec, rest: seq<Rec>) returns (d: Mdir)
    requires EntryOk(name, rest) && TotalSize(EntryRecs(name, rest)) <= 112
    ensures fresh(d) && fresh(d.active) && fresh(d.other) && d.Valid() && d.active.Length == d.other.Length == 128
    ensures d.prog == 16 && d.Sized()
    ensures d.count == 1 && !d.erased && d.tail == Tail(NULL_PAIR, false) && Stored(d.log) == ZERO
    ensures AttrsOf(d.log, 0) == EntryAttrs(name, rest) && DirOk(d.log, 1)
    ensures TotalSize(EntryRecs(name, rest)) <= 20 ==> TotalSize(d.log) <= 28
  {
    hide EndsBehind, CommitOk, FetchBlock, Encodes, Sound, Shaped, Attrs, EntryOk, TotalSize, CompactRecs, ItemsCount,
         Emit, Stored, XorG, ItemsTail, ItemSound, Carried, EntryRecs, CommitEnd, Mdir.Rewritten, OnDisk, Replay,
         EntryAttrs, Overfull, Mdir.Compacts, SameEntries, DirOk, AttrsOf, Mdir.Chosen, Flatten;
    var first, second := new Byte[128](_ => Byte(0)), new Byte[128](_ => Byte(0));
    d := Alloc(first, second, 16);
    ghost var recs := EntryRecs(name, rest);
    EntryCommits(name, rest);
    PlainsFlat(recs);
    NewFits(d, recs);
    ghost var written := CompactRecs(d.log, Plains(recs), 1, Tail(NULL_PAIR, false), ZERO);
    var r := d.Compact(Plains(EntryRecs(name, rest)), ZERO, 1, Tail(NULL_PAIR, false), BLANK_BLOCK, true);
    Made(d, name, rest, written);
    d.CanWalk();
  }

  lemma Made(d: Mdir, name: Rec, rest: seq<Rec>, written: seq<Rec>)
    requires EntryOk(name, rest) && d.Valid() && d.count == 1
    requires AllPlain(EntryRecs(name, rest)) && Flatten(Plains(EntryRecs(name, rest))) == EntryRecs(name, rest)
    requires SameEntries(d.log, [] + Flatten(Plains(EntryRecs(name, rest))), 1)
    requires Stored(d.log) == XorG(Stored([]), ZERO)
    requires EndsBehind(d.off, written, 16) && TotalSize(written) <= TotalSize(EntryRecs(name, rest))
    ensures AttrsOf(d.log, 0) == EntryAttrs(name, rest) && DirOk(d.log, 1) && Stored(d.log) == ZERO
    ensures TotalSize(EntryRecs(name, rest)) <= 20 ==> TotalSize(d.log) <= 28
  {
    hide CommitOk, FetchBlock, Encodes, Sound, Shaped, Attrs, EntryOk, TotalSize, CompactRecs, ItemsCount, Emit, Stored,
         XorG, ItemsTail, ItemSound, Carried, EntryRecs, CommitEnd, Mdir.Rewritten, OnDisk, Replay, EntryAttrs,
         Overfull, Mdir.Compacts, SameEntries, DirOk, AttrsOf, Mdir.Chosen, Flatten;
    var recs := EntryRecs(name, rest);
    EntryCommits(name, rest);
    PlainsFlat(recs);
    d.ValidIsReadable();
    EncodesSize(d.active[..], d.off, d.etag, d.log);
    EndOf(d.off, written);
    OneEntry(d, [], recs);
    StoredAfter();
  }

  /** A new pair takes a short list. */
  lemma NewFits(d: Mdir, recs: seq<Rec>)
    requires d.Readable() && d.log == [] && d.count == 0 && d.active.Length == 128 && d.prog == 16
    requires d.tail == Tail(NULL_PAIR, false) && AllPlain(recs) && TotalSize(recs) <= 112
    requires CommitOk([], 0, Plains(recs)) && ItemsCount(0, Plains(recs)) == 1
    ensures d.Sized() && d.Compacts(Plains(recs), ZERO, true) == Done
    ensures ItemsTail(d.tail, Plains(recs)) == Tail(NULL_PAIR, false)
    ensures TotalSize(CompactRecs([], Plains(recs), 1, Tail(NULL_PAIR, false), ZERO)) <= TotalSize(recs)
  {
    hide CommitOk, Encodes, Sound, Shaped, TotalSize, CompactRecs, ItemsCount, Emit, ItemsTail, Carried, OnDisk, Replay,
         Overfull, Flatten;
    d.CanWalk();
    PlainsFlat(recs);
    StoredAfter();
    NothingSize();
    CompactSize([], recs, 1, ZERO);
    OneNeverSplits(TotalSize(Emit([], Plains(recs), CompactWindow(0, 1))));
  }

  lemma OneNeverSplits(size: nat)
    ensures !Overfull(1, size, 128, 16)
  {
  }

  /** Where a short commit ends. */
  lemma EndOf(off: nat, recs: seq<Rec>)
    requires EndsBehind(off, recs, 16)
    ensures TotalSize(recs) <= 20 ==> off <= 32
  {
    hide TotalSize;
  }

  lemma StoredAfter()
    ensures Stored([]) == ZERO && XorG(ZERO, ZERO) == ZERO
  {
    XorGZero(ZERO);
  }

  lemma OneEntry(d: Mdir, log: seq<Rec>, recs: seq<Rec>)
    requires d.Valid() && d.count == 1 && SameEntries(d.log, log + recs, 1)
    requires ItemsOk(Plains(recs)) && Flatten(Plains(recs)) == recs
    requires exists n: nat :: CommitOk(log, n, Plains(recs)) && ItemsCount(n, Plains(recs)) == 1
    ensures AttrsOf(d.log, 0) == AttrsOf(log + recs, 0) && DirOk(d.log, 1)
  {
    hide FetchBlock, Attrs, Replay, Sound, Shaped, Flatten, ItemsCount, Harmless, ItemSound;
    AttrsHaveName(d.log, 0);
    AttrsHaveName(log + recs, 0);
  }

  // ---- The run ----

  const NAME_A := Rec(Tag(0x001, 0, 1), [Byte(97)])
  const NAME_C := Rec(Tag(0x001, 0, 1), [Byte(99)])
  const NAME_D := Rec(Tag(0x001, 0, 1), [Byte(100)])
  const NAME_E := Rec(Tag(0x001, 1, 1), [Byte(101)])
  function Filled(n: nat): (b: seq<Byte>)
    ensures |b| == n
  {
    seq(n, _ => Byte(0))
  }

  /** The kind of the user attribute of type 0x31. */
  const USER: bv11 := 0x331

  /** The struct of a new file, as creating it commits it; a user attribute; and the struct that a file sync commits. */
  const NEW_FILE := EmptyStruct(0)
  const ATTR := Rec(Tag(USER, 0, 84), Filled(84))
  const SYNC := Rec(Tag(0x202, 0, 8), Filled(8))

  /** "a" is to become "e" in the directory of "c". */
  const MOVE := Job(Pair(Word(2), Word(3)), 0, Pair(Word(4), Word(5)), 1, false, NAME_E, ZERO)

  lemma Kinds()
    ensures NameOk(NAME_A, 0) && NameOk(NAME_C, 0) && NameOk(NAME_D, 0) && NameOk(NAME_E, 1)
    ensures forall r | r == NEW_FILE || r == ATTR || r == SYNC ::
              && AllUnder([r], 0) && AllPlain([r]) && Key(r.tag.kind) != Slot(TYPE_NAME)
              && Type1(r.tag.kind) != TYPE_NAME && !ValueOf(r).Deleted()
    ensures Key(ATTR.tag.kind) == Slot(USER) && !SharesBlock(MOVE.from, MOVE.into) && !HasMove(ZERO)
  {
  }

  lemma Entries()
    ensures forall name | name == NAME_A || name == NAME_C || name == NAME_D ::
              EntryOk(name, [NEW_FILE]) && TotalSize(EntryRecs(name, [NEW_FILE])) == 13
  {
    hide NameOk, Carried, Key, Type1, IsAttr;
    Kinds();
    ThreeSizes(CREATE, NAME_A, [NEW_FILE]);
    ThreeSizes(CREATE, NAME_C, [NEW_FILE]);
    ThreeSizes(CREATE, NAME_D, [NEW_FILE]);
    ConsSize(NEW_FILE, []);
    NothingSize();
    assert [NEW_FILE] + [] == [NEW_FILE];
  }

  lemma ThreeSizes(a: Rec, b: Rec, rest: seq<Rec>)
    ensures TotalSize([a, b] + rest) == a.tag.DSize() + b.tag.DSize() + TotalSize(rest)
  {
    assert [a, b] + rest == [a] + ([b] + rest);
    ConsSize(a, [b] + rest);
    ConsSize(b, rest);
  }

  /** The directory of "c" with its long user attribute. */
  predicate Crowded(attrs: map<Slot, Value>) {
    Find(attrs, Slot(TYPE_NAME)) == Some(ValueOf(NAME_C)) && Find(attrs, Slot(USER)) == Some(ValueOf(ATTR))
  }

  lemma GetsCrowded(log: seq<Rec>)
    requires AttrsOf(log, 0) == EntryAttrs(NAME_C, [NEW_FILE])
    ensures Crowded(AttrsOf(log + [ATTR], 0))
  {
    hide Key, Attrs, Entry, Replay;
    Kinds();
    WrittenUnder(log, [ATTR], 0, 0);
    assert ValuesOf([ATTR]) == [ValueOf(ATTR)];
    OneMoreAttr(Entry(Replay(log), 0), ValueOf(ATTR));
  }

  /** The new entry does not fit: what is there already takes more than a block less its reserve. */
  lemma NoRoom(target: Mdir, src: seq<Rec>, delta: GState)
    requires target.Sized() && target.count == 1 && DirOk(target.log, 1) && target.active.Length == 128
    requires target.prog == 16 && !target.erased && AllSound(src) && AllShaped(src) && Crowded(AttrsOf(target.log, 0))
    requires CommitOk(target.log, target.count, RenameItems(1, false, NAME_E, src, 0, None))
    ensures target.Commits(RenameItems(1, false, NAME_E, src, 0, None), delta, true) == NoSpace
  {
    hide CommitOk, Flatten, Emit, Attrs, Replay, EntryAttrs, CompactRecs, TotalSize, NameOk, ItemsCount, RenameShown,
         AllSound, AllShaped, ItemsTail, OnDisk;
    var items := RenameItems(1, false, NAME_E, src, 0, None);
    Kinds();
    CommitNeeds(target.log, 1, items);
    RenameCommitOk(target.log, 1, src, 1, false, NAME_E, 0, None);
    FirstStays(target.log, src);
    CompactionPreserves(target.log, items, 0, 2);
    AttrSizes(Emit(target.log, items, CompactWindow(0, 2)), 0, Slot(TYPE_NAME), Slot(USER));
    TooMuch(TotalSize(Emit(target.log, items, CompactWindow(0, 2))));
  }

  lemma FirstStays(log: seq<Rec>, src: seq<Rec>)
    ensures RenameShown(log, 1, false, NAME_E, src, 0, None, 0) == AttrsOf(log, 0)
  {
    hide AttrsOf, Renamed;
  }

  lemma TooMuch(size: nat)
    ensures size >= 93 ==> Overfull(2, size, 128, 16) && size > 128 - 36
  {
  }

  /** A setattr or a file sync in a small directory. */
  lemma AttrCommits(log: seq<Rec>, r: Rec)
    requires DirOk(log, 1) && (r == ATTR || r == SYNC)
    ensures CommitOk(log, 1, Plains([r])) && Flatten(Plains([r])) == [r] && ItemsCount(1, Plains([r])) == 1
    ensures ItemsTail(Tail(NULL_PAIR, false), Plains([r])) == Tail(NULL_PAIR, false)
  {
    hide Replay, Sound, Shaped, Harmless, ItemsCount, ItemSound, IsAttr, Type1, Key, Carried;
    Kinds();
    PlainsFlat([r]);
    UnderCounts(1, [r]);
    CountOfMoved(log, [r], 0);
    WrittenUnder(log, [r], 0, 0);
    NameStays(Entry(Replay(log), 0), ValueOf(r));
    assert ValuesOf([r]) == [ValueOf(r)];
    assert HasName(Replay(log), 0);
  }

  lemma NameStays(values: seq<Value>, v: Value)
    requires !v.Deleted()
    ensures Slot(TYPE_NAME) in Attrs(values) ==> Slot(TYPE_NAME) in Attrs(values + [v])
  {
    hide Key;
    assert (values + [v])[..|values|] == values;
  }

  /** It fits: an attribute of 84 bytes if there is no state to be stored. */
  lemma Room(d: Mdir, r: Rec, delta: GState)
    requires d.Sized() && d.count == 1 && CommitOk(d.log, 1, Plains([r])) && DirOk(d.log, 1)
    requires d.active.Length == 128 && d.prog == 16 && !d.erased && TotalSize(d.log) <= 28
    requires d.tail == Tail(NULL_PAIR, false) && (r == SYNC || (r == ATTR && delta == Stored(d.log) == ZERO))
    ensures d.Commits(Plains([r]), delta, true) == Done
  {
    hide CommitOk, Emit, CompactRecs, TotalSize, ItemsCount, ItemsTail, Carried, OnDisk, Replay, Overfull, Flatten,
         DirOk, Stored;
    Kinds();
    AttrCommits(d.log, r);
    CompactSize(d.log, [r], 1, delta);
    ConsSize(r, []);
    NothingSize();
    assert [r] + [] == [r];
    OneNeverSplits(TotalSize(Emit(d.log, Plains([r]), CompactWindow(0, 1))));
  }

  /** lfs_setattr on "c". */
  method SetAttr(lfs: Lfs, d: Mdir)
    requires d.Valid() && d.active.Length == d.other.Length == 128 && d.prog == 16 && d.count == 1 && !d.erased
    requires d.tail == Tail(NULL_PAIR, false) && TotalSize(d.log) <= 28 && DirOk(d.log, 1)
    requires AttrsOf(d.log, 0) == EntryAttrs(NAME_C, [NEW_FILE]) && Stored(d.log) == ZERO
    requires lfs.gstate == lfs.gdisk == lfs.gdelta == ZERO
    modifies lfs, d, d.active, d.other
    ensures d.Valid() && {d.active, d.other} == {old(d.active), old(d.other)} && d.count == 1 && !d.erased
    ensures DirOk(d.log, 1) && Crowded(AttrsOf(d.log, 0)) && Stored(d.log) == ZERO
    ensures lfs.gstate == lfs.gdisk == lfs.gdelta == ZERO
  {
    hide FetchBlock, DirOk, CommitOk, EntryAttrs, TotalSize, Stored, Attrs, Replay, Flatten, ItemsCount, ItemsTail,
         XorG, Mdir.Shape, Mdir.Commits, SameEntries, Crowded, AttrsOf, Mdir.Appended, Mdir.Rewritten, AppendRecs,
         CompactRecs;
    StoredAfter();
    d.CanWalk();
    AttrCommits(d.log, ATTR);
    Room(d, ATTR, ZERO);
    GetsCrowded(d.log);
    XorGZeroRight(ZERO);
    ghost var log := d.log;
    var r := lfs.CommitDir(d, Plains([ATTR]), BLANK_BLOCK, true, true);
    OneEntry(d, log, [ATTR]);
  }

  lemma NothingSize()
    ensures TotalSize([]) == 0
  {
  }

  /** The three directories are as the rename asks for. */
  lemma AllReady(lfs: Lfs, source: Mdir, target: Mdir, third: Mdir)
    requires source.Valid() && target.Valid() && source != target
    requires {source.active, source.other} !! {target.active, target.other}
    requires source.count == target.count == 1 && DirOk(source.log, 1) && DirOk(target.log, 1)
    requires Stored(source.log) == Stored(target.log) == Stored(third.log) == ZERO
    requires lfs.gstate == lfs.gdisk == lfs.gdelta == ZERO
    requires Crowded(AttrsOf(target.log, 0))
    ensures lfs.Ready(source, target, MOVE) && OnlyOne(lfs.Now(source, target), 1, 1, MOVE)
    ensures MOVE.rest == XorG(ZERO, Stored(third.log))
  {
    hide FetchBlock, DirOk, Attrs, Replay, Stored, XorG, EntryAttrs, NameOk, Movable, SharesBlock, HasMove, OnDiskPart;
    Kinds();
    XorGZero(ZERO);
  }

  /** The three directories. */
  method Directories() returns (lfs: Lfs, source: Mdir, target: Mdir, third: Mdir)
    ensures fresh(lfs) && lfs.gstate == lfs.gdisk == lfs.gdelta == ZERO
    ensures fresh(source) && fresh(source.active) && fresh(source.other) && fresh(target) && fresh(third)
    ensures fresh(target.active) && fresh(target.other) && fresh(third.active) && fresh(third.other)
    ensures source != target && third != source && third != target
    ensures {source.active, source.other} !! {target.active, target.other}
    ensures {third.active, third.other} !! {source.active, source.other, target.active, target.other}
    ensures forall d | d == source || d == target || d == third ::
              && d.Valid() && d.active.Length == d.other.Length == 128 && d.prog == 16 && d.count == 1 && !d.erased
              && DirOk(d.log, 1) && Stored(d.log) == ZERO
    ensures Crowded(AttrsOf(target.log, 0)) && TotalSize(third.log) <= 28 && third.tail == Tail(NULL_PAIR, false)
  {
    hide FetchBlock, DirOk, EntryOk, EntryRecs, EntryAttrs, TotalSize, Stored, Attrs, Replay, Mdir.Shape, XorG, Crowded,
         AttrsOf;
    Entries();
    source := NewDir(NAME_A, [NEW_FILE]);
    target := NewDir(NAME_C, [NEW_FILE]);
    third := NewDir(NAME_D, [NEW_FILE]);
    lfs := new Lfs(ZERO);
    SetAttr(lfs, target);
  }

  /**
   * The loss. From blank blocks three directories of one empty file each are made, and "c" is given an attribute of 84
   * bytes; a rename of "a" finds no room in the directory of "c" and fails; a file sync in the directory of "d"
   * succeeds. Before, a mount listed "a"; now it lists the entry nowhere.
   */
  method LossRun() returns (source: Mdir, target: Mdir, ghost before: Snapshot, ghost found: GState)
    ensures Lists(before.source, 1, None, OldEntry(before, MOVE))
    ensures !Lists(source.log, source.count, HiddenIn(found, MOVE.from), OldEntry(before, MOVE))
    ensures !Lists(target.log, target.count, HiddenIn(found, MOVE.into), NewEntry(before, MOVE))
  {
    hide FetchBlock, DirOk, CommitOk, EntryOk, EntryRecs, EntryAttrs, TotalSize, Stored, Attrs, Replay, Flatten, Lists,
         OnlyOne, Mdir.Shape, Mdir.Commits, ItemsCount, ItemsTail, HiddenIn, HasMove, FoundState, Delta, PrepMove,
         OldEntry, NewEntry, Lfs.FirstAnswer, Lfs.SecondAnswer, XorG, OnDiskPart, Lfs.Ready, Crowded, AttrsOf,
         SameEntries;
    var lfs, third;
    lfs, source, target, third := Directories();
    AllReady(lfs, source, target, third);
    before := lfs.Now(source, target);
    ListsOld(before, 1, 1, MOVE, None);
    third.CanWalk();
    AttrCommits(third.log, SYNC);
    FirstFails(lfs, source, target);
    NextSucceeds(lfs, source, target, third);
    var r;
    ghost var commits;
    r, commits :=
      lfs.RenameThenCommit(source, target, third, MOVE, Plains([SYNC]), BLANK_BLOCK, true, false, false, ZERO);
    found := FoundState(XorG(ZERO, Stored(third.log)), lfs.Now(source, target));
  }

  lemma FirstFails(lfs: Lfs, source: Mdir, target: Mdir)
    requires lfs.Ready(source, target, MOVE) && target.count == 1 && !target.erased
    requires target.active.Length == 128 && target.prog == 16 && Crowded(AttrsOf(target.log, 0))
    ensures lfs.FirstAnswer(source, target, MOVE, true) == NoSpace
  {
    hide FetchBlock, CommitOk, EntryAttrs, Mdir.Commits, Delta, Attrs, Replay, Flatten, HasMove, FoundState, NameOk,
         PrepMove;
    lfs.CommitsFirst(source, target, MOVE);
    DirSound(source.log, source.count);
    NoRoom(target, source.log, Delta(Prepared(lfs.gstate, MOVE), lfs.gdisk, lfs.gdelta));
  }

  lemma NextSucceeds(lfs: Lfs, source: Mdir, target: Mdir, third: Mdir)
    requires lfs.Ready(source, target, MOVE) && third.Sized() && CommitOk(third.log, third.count, Plains([SYNC]))
    requires third.count == 1 && DirOk(third.log, 1) && third.active.Length == 128 && third.prog == 16 && !third.erased
    requires TotalSize(third.log) <= 28 && third.tail == Tail(NULL_PAIR, false)
    ensures lfs.NextAnswer(source, target, third, MOVE, Plains([SYNC]), true, false) == Done
  {
    hide Lfs.Ready, CommitOk, Mdir.Commits, Delta, PrepMove, Lfs.FirstAnswer, Lfs.SecondAnswer, DirOk, TotalSize;
    lfs.ReadySmall(source, target, MOVE);
    forall delta: GState ensures third.Commits(Plains([SYNC]), delta, true) == Done {
      Room(third, SYNC, delta);
    }
  }
}
