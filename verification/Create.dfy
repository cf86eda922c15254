/** Creating a file: the search gives the place, one commit makes the entry, and every later search finds it there. */
module Create {
  import opened Words
  import opened Tags
  import opened Log
  import opened Fetch
  import opened Commit
  import opened Traverse
  import Compaction
  import opened GlobalState
  import opened Conservation
  import opened Contents
  import opened MetadataPair
  import opened Moves
  import opened Filesystem
  import opened Names
  import opened Order
  import opened Find

  function NameRec(id: nat, name: seq<Byte>): Rec { Rec(Tag(0x001, id, |name|), name) }

  /** The attribute list of lfs_file_rawopencfg for a file that does not exist: an empty inline file. */
  function NewFile(id: nat, name: seq<Byte>): seq<Rec> {
    [Rec(Tag(TYPE_CREATE, id, 0), []), NameRec(id, name), EmptyStruct(id)]
  }

  lemma NewFileKinds(id: nat, name: seq<Byte>)
    requires id < 1024 && |name| < DELETED_SIZE
    ensures AllPlain(NewFile(id, name)) && NewName(NameRec(id, name), id) && Nameless(NewFile(id, name)[2])
    ensures !IsAttr(TYPE_CREATE) && TYPE_CREATE != TYPE_DELETE
  {
  }

  /** What the list writes: a regular file with the name, as an empty inline file; every other entry stays as it is. */
  lemma NewFileShows(log: seq<Rec>, id: nat, name: seq<Byte>, j: nat)
    requires |name| < DELETED_SIZE
    ensures AttrsOf(log + NewFile(id, name), j) ==
            if j == id then map[Slot(0x000) := Value(0x001, |name|, name), Slot(0x200) := Value(0x201, 0, [])]
            else AttrsOf(log, if j < id then j else j - 1)
  {
    hide Attrs, Replay, Entry;
    var c, recs := Rec(Tag(TYPE_CREATE, id, 0), []), [NameRec(id, name), EmptyStruct(id)];
    assert log + NewFile(id, name) == log + [c] + recs;
    CreatedShows(log, id, j);
    NewFileUnder(id, name);
    WrittenUnder(log + [c], recs, id, j);
    assert ValuesOf(recs) == [Value(0x001, |name|, name), Value(0x201, 0, [])];
    if j == id {
      assert [] + ValuesOf(recs) == ValuesOf(recs);
      TwoAttrs(Value(0x001, |name|, name), Value(0x201, 0, []));
    }
  }

  lemma NewFileUnder(id: nat, name: seq<Byte>)
    ensures AllUnder([NameRec(id, name), EmptyStruct(id)], id)
  {
  }

  lemma TwoAttrs(a: Value, b: Value)
    requires !a.Deleted() && !b.Deleted() && a.kind == 0x001 && b.kind == 0x201
    ensures Attrs([a, b]) == map[Slot(0x000) := a, Slot(0x200) := b]
  {
    hide Key;
    NewKeys();
    assert [a, b][..1] == [a] && [a][..0] == [];
    assert Attrs([]) == map[] && Attrs([a]) == map[Slot(0x000) := a];
  }

  lemma NewKeys()
    ensures Key(0x001) == Key(0x0ff) == Slot(0x000) && Key(0x201) == Slot(0x200)
  {
  }

  lemma HasNameAt(d: Dir, id: nat)
    ensures Compaction.HasName(d, id) <==> NameAt(d, id).Some?
  {
  }

  /** The new entry in its place. */
  lemma NewFileTidy(log: seq<Rec>, id: nat, name: seq<Byte>)
    requires Tidy(log) && EveryNamed(Replay(log)) && Replay(log).count + 1 < NO_ID && id <= Replay(log).count
    requires Belongs(Replay(log), id, name) && |name| < DELETED_SIZE
    ensures var all, named := log + NewFile(id, name), log + NewFile(id, name)[..2];
            && Tidy(all) && Tidy(named) && EveryNamed(Replay(all)) && Replay(all).count == Replay(log).count + 1
            && forall i: nat :: NameAt(Replay(all), i) == NameAt(Replay(named), i)
  {
    hide NameAt, Replay, NameCmp, Carried, NewName, Nameless, Tidy, Belongs;
    NewFileKinds(id, name);
    CreateTidy(log, id, NameRec(id, name));
    var named := log + NewFile(id, name)[..2];
    assert NewFile(id, name)[..2] == [Rec(Tag(TYPE_CREATE, id, 0), []), NameRec(id, name)];
    OthersTidy(named, [NewFile(id, name)[2]]);
    assert log + NewFile(id, name) == named + [NewFile(id, name)[2]];
  }

  lemma NewFileCounts(count: nat, id: nat, name: seq<Byte>)
    requires id < 1024 && |name| < DELETED_SIZE
    ensures ItemsCount(count, Plains(NewFile(id, name))) == count + 1
  {
    hide ItemsCount;
    var recs := NewFile(id, name);
    var items := Plains(recs);
    CountStep(count, items[0], items[1..]);
    CountStep(count + 1, items[1], items[2..]);
    CountStep(count + 1, items[2], []);
    assert items == [items[0]] + items[1..] && items[1..] == [items[1]] + items[2..] && items[2..] == [items[2]] + [];
  }

  lemma NewFileSome(id: nat, name: seq<Byte>)
    ensures NewFile(id, name) != []
  {
  }

  /** Such a list may be committed. */
  lemma NewFileCommits(log: seq<Rec>, id: nat, name: seq<Byte>)
    requires Tidy(log) && EveryNamed(Replay(log)) && 0 <= Replay(log).count < 0xfe && id <= Replay(log).count
    requires Belongs(Replay(log), id, name) && |name| < DELETED_SIZE
    ensures CommitOk(log, Replay(log).count, Plains(NewFile(id, name)))
    ensures ItemsSound(Plains(NewFile(id, name))) && Flatten(Plains(NewFile(id, name))) == NewFile(id, name) != []
    ensures ItemsCount(Replay(log).count, Plains(NewFile(id, name))) == Replay(log).count + 1
  {
    hide NameAt, Replay, NameCmp, Carried, NewName, Nameless, Tidy, Belongs, ItemsCount, ItemSound, Compaction.Harmless,
         NewFile;
    NewFileKinds(id, name);
    NewFileSome(id, name);
    PlainsFlat(NewFile(id, name));
    NewFileTidy(log, id, name);
    NewFileCounts(Replay(log).count, id, name);
    forall i: nat | i < Replay(log).count + 1 ensures Compaction.HasName(Replay(log + NewFile(id, name)), i) {
      HasNameAt(Replay(log + NewFile(id, name)), i);
    }
  }

  /** One pair of a directory written anew, with the same names. */
  lemma SameNamesSameOrder(parts: seq<Part>, k: nat, p: Part)
    requires DirectoryOk(parts) && NoneHidden(parts) && k < |parts| && PartOk(p) && p.hidden == None
    requires forall id: nat :: NameAt(StoredDir(p), id) == NameAt(StoredDir(parts[k]), id)
    ensures DirectoryOk(parts[k := p]) && NoneHidden(parts[k := p])
  {
    hide NameAt, StoredDir, PartOk, Precedes;
    var after := parts[k := p];
    forall i, j | 0 <= i < j < |after| ensures AllBefore(after[i], after[j]) {
      assert AllBefore(parts[i], parts[j]);
    }
  }

  /** A pair that has been committed to. */
  lemma CommittedPart(d: Mdir, named: Part)
    requires PartOk(named) && named.hidden == None && Tidy(d.log)
    requires forall id: nat :: NameAt(Replay(d.log), id) == NameAt(StoredDir(named), id)
    requires Replay(d.log).count == StoredDir(named).count
    ensures PartOk(Part(d.log, None))
  {
    hide NameAt, Replay, Tidy;
  }

  /** The pair after the commit: in order, and with the new name. */
  lemma CreatedOnDisk(d: Mdir, before: seq<Byte>, p: Part, id: nat, name: seq<Byte>, t: Tail, delta: GState,
                      blank: seq<Byte>)
    requires d.Valid() && |name| < DELETED_SIZE && |before| >= 4 && AllSound(p.log) && AllShaped(p.log)
    requires AllOnDisk(p.log) && PartOk(p) && p.hidden == None && id <= StoredDir(p).count && id < 1024
    requires Belongs(StoredDir(p), id, name) && 0 <= StoredDir(p).count < 0xfe && d.count == StoredDir(p).count + 1
    requires FetchBlock(before, d.prog).found.log == p.log && FetchBlock(before, d.prog).found.off > 0
    requires CommitOk(p.log, StoredDir(p).count, Plains(NewFile(id, name)))
    requires || d.Appended(before, AppendRecs(p.log, Plains(NewFile(id, name)), delta))
             || d.Rewritten(CompactRecs(p.log, Plains(NewFile(id, name)), StoredDir(p).count + 1, t, delta), blank)
    ensures var named := With(p, id, NameRec(id, name));
            && PartOk(Part(d.log, None)) && NewName(NameRec(id, name), id)
            && (forall i: nat :: NameAt(Replay(d.log), i) == NameAt(StoredDir(named), i))
  {
    hide FetchBlock, NameAt, Tidy, PartOk, Sound, Shaped, OnDisk, AppendRecs, CompactRecs, Mdir.Appended,
         Mdir.Rewritten, CommitOk, Belongs, NewFile, ItemsCount, Carried, NewName, Replay, NameRec, With;
    NewFileKinds(id, name);
    NewFileTidyPart(p, id, name);
    NewFileCommits(p.log, id, name);
    CommitTidy(d, before, p.log, Replay(p.log).count, Plains(NewFile(id, name)), t, delta, blank);
    NamedPart(p, id, name);
    DirCount(d);
    CommittedPart(d, With(p, id, NameRec(id, name)));
  }

  lemma DirCount(d: Mdir)
    requires d.Valid()
    ensures Replay(d.log).count == d.count
  {
  }

  lemma NamedPart(p: Part, id: nat, name: seq<Byte>)
    requires PartOk(p) && p.hidden == None && 0 <= StoredDir(p).count < 0xfe && id <= StoredDir(p).count
    requires Belongs(StoredDir(p), id, name) && |name| < DELETED_SIZE
    ensures var named := With(p, id, NameRec(id, name));
            PartOk(named) && named.hidden == None && StoredDir(named).count == StoredDir(p).count + 1
  {
    hide NameAt, Tidy, PartOk, Belongs, NewFile, Carried, NewName, Replay;
    NewFileKinds(id, name);
    CreatedOk(p, id, NameRec(id, name));
  }

  /** The directory after the commit. */
  lemma CreatedIsFound(parts: seq<Part>, k: nat, id: nat, name: seq<Byte>, p: Part)
    requires DirectoryOk(parts) && NoneHidden(parts) && k < |parts| && IsPlace(parts, k, id, name)
    requires StoredDir(parts[k]).count + 1 < NO_ID && NewName(NameRec(id, name), id)
    requires PartOk(p) && p.hidden == None
    requires forall i: nat :: NameAt(StoredDir(p), i) == NameAt(StoredDir(With(parts[k], id, NameRec(id, name))), i)
    ensures var after := parts[k := p];
            && DirectoryOk(after) && NoneHidden(after) && AllPartsFit(after)
            && FindFrom(after, 0, name) == At(k, NameRec(id, name).tag)
  {
    hide FindFrom, DirectoryOk, NameAt, PartOk, Belongs, IsPlace, NewName, With, StoredDir;
    var named := With(parts[k], id, NameRec(id, name));
    PlaceParts(parts, k, id, name);
    NotHidden(parts, k);
    CreatedOk(parts[k], id, NameRec(id, name));
    CreateKeepsOrder(parts, k, id, NameRec(id, name));
    SameNamesSameOrder(parts[k := named], k, p);
    assert parts[k := named][k := p] == parts[k := p];
    HasSame(StoredDir(named), StoredDir(p), id, name);
    FoundNew(parts[k := p], k, id, NameRec(id, name));
  }

  lemma NotHidden(parts: seq<Part>, k: nat)
    requires NoneHidden(parts) && k < |parts|
    ensures parts[k].hidden == None
  {
  }

  lemma HasSame(d: Dir, e: Dir, id: nat, name: seq<Byte>)
    requires Has(d, id, name) && NameAt(e, id) == NameAt(d, id)
    ensures Has(e, id, name)
  {
  }

  lemma NewFileTidyPart(p: Part, id: nat, name: seq<Byte>)
    requires PartOk(p) && p.hidden == None && 0 <= StoredDir(p).count < 0xfe && id <= StoredDir(p).count
    requires Belongs(StoredDir(p), id, name) && |name| < DELETED_SIZE
    ensures var all, named := Replay(p.log + NewFile(id, name)), StoredDir(With(p, id, NameRec(id, name)));
            && Tidy(p.log + NewFile(id, name)) && all.count == named.count
            && (forall i: nat :: NameAt(all, i) == NameAt(named, i))
    ensures Tidy(p.log) && EveryNamed(Replay(p.log)) && Belongs(Replay(p.log), id, name)
  {
    hide NameAt, Replay, Tidy, Belongs, Nameless, NewName;
    NewFileTidy(p.log, id, name);
    NewFileKinds(id, name);
    CreateTidy(p.log, id, NameRec(id, name));
    assert NewFile(id, name)[..2] == [Rec(Tag(TYPE_CREATE, id, 0), []), NameRec(id, name)];
    assert With(p, id, NameRec(id, name)).log == p.log + NewFile(id, name)[..2];
  }

  /**
   * Creating a file where the search says: parts is the directory, of which d is the pair with the place. When the
   * commit goes through, the directory is in order on disk again, a search finds the new file in exactly that place,
   * its entry is that of an empty regular file, and every other entry keeps all its attributes; when it does not, the
   * pair is as it was.
   */
  method CreateFile(lfs: Lfs, d: Mdir, ghost parts: seq<Part>, ghost k: nat, id: nat, name: seq<Byte>, blank: seq<Byte>,
                    full: bool)
    returns (r: Written)
    requires d.Valid() && |blank| == d.other.Length && |name| < DELETED_SIZE && d.count < 0xfe
    requires DirectoryOk(parts) && NoneHidden(parts) && AllPartsFit(parts)
    requires k < |parts| && parts[k] == Part(d.log, None) && FindFrom(parts, 0, name) == Nowhere(k, id)
    modifies lfs, d, d.active, d.other
    ensures var after := parts[k := Part(d.log, None)];
            r.Done? ==>
              && d.Valid() && DirectoryOk(after) && NoneHidden(after) && AllPartsFit(after)
              && FindFrom(after, 0, name) == At(k, Tag(0x001, id, |name|))
              && id <= old(d.count) && d.count == old(d.count) + 1 && lfs.gdisk == lfs.gstate
    ensures r.Done? ==>
              && AttrsOf(d.log, id) == map[Slot(0x000) := Value(0x001, |name|, name), Slot(0x200) :=
                 Value(0x201, 0, [])]
              && forall j: nat | j < d.count && j != id ::
                   AttrsOf(d.log, j) == AttrsOf(old(d.log), if j < id then j else j - 1)
    ensures !r.Done? ==> d.log == old(d.log) && d.count == old(d.count)
  {
    hide FindFrom, DirectoryOk, CommitOk, FetchBlock, Stored, Flatten, XorG, Mdir.Shape, ItemsCount, ItemsTail,
         SameEntries, Mdir.Commits, Replay, NameAt, Tidy, Delta, NewFile, IsPlace, PartOk, Belongs, Mdir.Appended,
         Mdir.Rewritten, AppendRecs, CompactRecs, AllPartsFit, NewName, Sound, Shaped, OnDisk, With, NameRec, AttrsOf;
    ghost var log, before := d.log, d.active[..];
    ghost var t, delta := d.tail, Delta(lfs.gstate, lfs.gdisk, lfs.gdelta);
    FindIsExact(parts, name);
    PlaceParts(parts, k, id, name);
    ReadySoon(d, parts[k]);
    NewFileCommits(d.log, id, name);
    r := lfs.CommitDir(d, Plains(NewFile(id, name)), blank, full, true);
    if r.Done? {
      CreatedOnDisk(d, before, parts[k], id, name, ItemsTail(t, Plains(NewFile(id, name))), delta, blank);
      CreatedIsFound(parts, k, id, name, Part(d.log, None));
      NameTag(id, name);
      AttrsOnDisk(d.log, log, id, name, d.count);
    }
  }

  lemma NameTag(id: nat, name: seq<Byte>)
    ensures NameRec(id, name).tag == Tag(0x001, id, |name|)
  {
  }

  lemma AttrsOnDisk(after: seq<Rec>, log: seq<Rec>, id: nat, name: seq<Byte>, n: nat)
    requires SameEntries(after, log + NewFile(id, name), n) && id < n && |name| < DELETED_SIZE
    ensures AttrsOf(after, id) == map[Slot(0x000) := Value(0x001, |name|, name), Slot(0x200) := Value(0x201, 0, [])]
    ensures forall j: nat | j < n && j != id :: AttrsOf(after, j) == AttrsOf(log, if j < id then j else j - 1)
  {
    hide Attrs, Replay, Entry, NewFile;
    forall j: nat | j < n
      ensures AttrsOf(after, j) ==
              if j == id then map[Slot(0x000) := Value(0x001, |name|, name), Slot(0x200) := Value(0x201, 0, [])]
              else AttrsOf(log, if j < id then j else j - 1)
    {
      NewFileShows(log, id, name, j);
      assert Attrs(Entry(Replay(after), j)) == Attrs(Entry(Replay(log + NewFile(id, name)), j));
    }
  }

  lemma ReadySoon(d: Mdir, p: Part)
    requires d.Valid() && PartOk(p) && p == Part(d.log, None)
    ensures Tidy(d.log) && EveryNamed(Replay(d.log)) && Replay(d.log).count == d.count
    ensures AllSound(d.log) && AllShaped(d.log) && AllOnDisk(d.log)
    ensures d.active.Length >= 4 && FetchBlock(d.active[..], d.prog).found.off > 0
    ensures FetchBlock(d.active[..], d.prog).found.log == d.log
  {
    hide FetchBlock, NameAt, Replay, Tidy, Sound, Shaped, OnDisk;
    SearchKeepsPlace(d.log, []);
  }

  // ---- The root directory ----

  /** "littlefs". */
  const MAGIC: seq<Byte> :=
    [Byte(0x6c), Byte(0x69), Byte(0x74), Byte(0x74), Byte(0x6c), Byte(0x65), Byte(0x66), Byte(0x73)]

  /** What lfs_rawformat commits to the root directory: the superblock entry. */
  function RootLog(superblock: seq<Byte>): seq<Rec> {
    [Rec(Tag(0x401, 0, 0), []), Rec(Tag(0x0ff, 0, 8), MAGIC), Rec(Tag(0x201, 0, |superblock|), superblock)]
  }

  lemma RootKinds(superblock: seq<Byte>)
    requires |superblock| == 24
    ensures var log := RootLog(superblock);
            && OnDisk(log[1]) && log[1].tag.Fits() && Type1(log[1].tag.kind) == TYPE_NAME && !Findable(log[1].tag.kind)
            && Nameless(log[2]) && !Findable(0x401) && !Findable(0x201) && log[0] == Rec(Tag(TYPE_CREATE, 0, 0), [])
  {
  }

  /** A formatted root is in order: one entry, which no search looks at. */
  lemma RootOk(superblock: seq<Byte>)
    requires |superblock| == 24
    ensures PartOk(Part(RootLog(superblock), None)) && Replay(RootLog(superblock)).count == 1
    ensures NameAt(Replay(RootLog(superblock)), 0) == Some(Value(0x0ff, 8, MAGIC))
    ensures forall id: nat | id > 0 :: NameAt(Replay(RootLog(superblock)), id) == None
  {
    hide NameAt, Tidy, Apply, OnDisk, Replay, Findable;
    var log := RootLog(superblock);
    EmptyLog();
    CreatedHole([], 0);
    RootKinds(superblock);
    assert [] + [log[0]] == [log[0]] && [log[0]] + [log[1]] == log[..2] && log[..2] + [log[2]] == log;
    SuperblockTidy([log[0]], log[1]);
    OthersTidy(log[..2], [log[2]]);
  }

  /** What is under id 0 of a formatted root, where a mount looks for the superblock. */
  lemma RootShows(superblock: seq<Byte>)
    requires |superblock| == 24
    ensures AttrsOf(RootLog(superblock), 0) ==
            map[Slot(0x000) := Value(0x0ff, 8, MAGIC), Slot(0x200) := Value(0x201, 24, superblock)]
  {
    hide Attrs, Replay, Entry;
    var log := RootLog(superblock);
    var recs := log[1..];
    RootUnder(superblock);
    assert [] + [log[0]] == [log[0]] && [log[0]] + recs == log;
    CreatedShows([], 0, 0);
    WrittenUnder([log[0]], recs, 0, 0);
    assert ValuesOf(recs) == [Value(0x0ff, 8, MAGIC), Value(0x201, 24, superblock)];
    assert [] + ValuesOf(recs) == ValuesOf(recs);
    SuperblockAttrs(Value(0x0ff, 8, MAGIC), Value(0x201, 24, superblock));
  }

  lemma RootUnder(superblock: seq<Byte>)
    requires |superblock| == 24
    ensures AllUnder(RootLog(superblock)[1..], 0) && RootLog(superblock)[0] == Rec(Tag(TYPE_CREATE, 0, 0), [])
  {
  }

  lemma SuperblockAttrs(a: Value, b: Value)
    requires !a.Deleted() && !b.Deleted() && a.kind == 0x0ff && b.kind == 0x201
    ensures Attrs([a, b]) == map[Slot(0x000) := a, Slot(0x200) := b]
  {
    hide Key;
    NewKeys();
    assert [a, b][..1] == [a] && [a][..0] == [];
    assert Attrs([]) == map[] && Attrs([a]) == map[Slot(0x000) := a];
  }

  lemma EmptyLog()
    ensures Tidy([]) && Replay([]).count == 0 && forall id: nat :: NameAt(Replay([]), id) == None
  {
  }

  lemma SuperblockTidy(log: seq<Rec>, r: Rec)
    requires Tidy(log) && Replay(log).count == 1 && forall id: nat :: NameAt(Replay(log), id) == None
    requires OnDisk(r) && r.tag.Fits() && Type1(r.tag.kind) == TYPE_NAME && r.tag.id == 0 && r.tag.size == 8
    ensures Tidy(log + [r]) && Replay(log + [r]).count == 1
    ensures forall id: nat :: NameAt(Replay(log + [r]), id) == if id == 0 then Some(ValueOf(r)) else None
  {
    hide NameAt, Tidy, Apply, OnDisk, Replay;
    NamedAfter(Replay(log), r);
    NameNoSplice(r);
    TidySnoc(log, r);
  }

  /** The superblock entry has to stay the first one, where a mount looks for it: nothing is created in front of it. */
  lemma SuperblockStaysFirst(parts: seq<Part>, name: seq<Byte>)
    requires DirectoryOk(parts) && NoneHidden(parts) && AllPartsFit(parts)
    requires NameAt(StoredDir(parts[0]), 0).Some? && NameAt(StoredDir(parts[0]), 0).value.kind == 0x0ff
    ensures FindFrom(parts, 0, name).Nowhere? ==> FindFrom(parts, 0, name).k > 0 || FindFrom(parts, 0, name).id > 0
    ensures FindFrom(parts, 0, name).At? ==> FindFrom(parts, 0, name).k > 0 || FindFrom(parts, 0, name).tag.id > 0
  {
    hide NameAt, StoredDir, PartOk, FindFrom, Findable, NameCmp, AllBefore;
    SuperblockKind();
    FindIsExact(parts, name);
  }

  lemma SuperblockKind()
    ensures !Findable(0x0ff)
  {
  }

  /**
   * In a formatted root directory, compacted or not, no name is found, and every name goes behind the superblock entry;
   * also one that comes before "littlefs".
   */
  lemma RootSearch(root: Part, name: seq<Byte>)
    requires PartOk(root) && root.hidden == None && StoredDir(root).count == 1
    requires NameAt(StoredDir(root), 0) == Some(Value(0x0ff, 8, MAGIC))
    ensures DirectoryOk([root]) && NoneHidden([root]) && AllPartsFit([root])
    ensures FindFrom([root], 0, name) == Nowhere(0, 1)
  {
    hide NameAt, PartOk, FindFrom, Findable, NameCmp, StoredDir;
    SuperblockKind();
    NamedBelow(root);
    FindIsExact([root], name);
  }

  /** The first file of a root directory. */
  lemma RootCreate(superblock: seq<Byte>, name: Rec)
    requires |superblock| == 24 && NewName(name, 1)
    ensures var root := Part(RootLog(superblock), None);
            && DirectoryOk([With(root, 1, name)]) && NoneHidden([With(root, 1, name)])
            && AllPartsFit([With(root, 1, name)]) && FindFrom([With(root, 1, name)], 0, name.data) == At(0, name.tag)
            && NameAt(StoredDir(With(root, 1, name)), 0) == Some(Value(0x0ff, 8, MAGIC))
  {
    hide NameAt, PartOk, FindFrom, NameCmp, With, NewName, Replay;
    var root := Part(RootLog(superblock), None);
    RootOk(superblock);
    RootSearch(root, name.data);
    CreateIsFound([root], name);
    CreatedNames(root, 1, name);
    assert [root][0 := With(root, 1, name)] == [With(root, 1, name)];
  }
}
