/**
 * Moving an entry between directories, on the level of logs: what the commits of a rename do to the entries, and what a
 * pending move makes of them.
 */
module Moves {
  import opened Words
  import opened Tags
  import opened Log
  import opened Fetch
  import opened Lookup
  import opened Traverse
  import opened Compaction
  import opened GlobalState
  import opened Conservation
  import opened Contents

  /** The attributes of one entry of a log. */
  function AttrsOf(log: seq<Rec>, id: nat): map<Slot, Value> { Attrs(Entry(Replay(log), id)) }

  /** The attributes of one entry as lookups find them while a move may be pending. */
  function Shown(log: seq<Rec>, hidden: Option<nat>, id: nat): map<Slot, Value> { AttrsOf(Visible(log, hidden), id) }

  // ---- The pending move in the global state ----

  /** lfs_pair_cmp(a, b) == 0: pairs that share a block. */
  predicate SharesBlock(a: Pair, b: Pair) {
    a.first == b.first || a.second == b.second || a.first == b.second || a.second == b.first
  }

  /** lfs_gstate_hasmove. */
  predicate HasMove(g: GState) { Type1(KindBits(g.tag)) != 0 }

  /** lfs_gstate_hasmovehere and the id it hides. */
  function HiddenIn(g: GState, pair: Pair): Option<nat> {
    if HasMove(g) && SharesBlock(Pair(g.first, g.second), pair) then Some(Unpack(g.tag).id) else None
  }

  /** The tag of a move state with its type and id replaced: lfs_fs_prepmove keeps the rest. */
  function WithMove(w: Word, kind: bv11, id: bv10): Word {
    Word((w.bits & 0x8000_03ff) | MkTag(kind, id, 0).bits)
  }

  /** lfs_fs_prepmove: id None is 0x3ff, which clears the move. */
  function PrepMove(g: GState, id: Option<nat>, pair: Pair): GState
    requires id.Some? ==> id.value < NO_ID
  {
    if id.Some? then GState(WithMove(g.tag, TYPE_DELETE, id.value as bv10), pair.first, pair.second)
    else GState(WithMove(g.tag, 0, 0), Word(0), Word(0))
  }

  lemma MoveFields(w: Word, kind: bv11, id: bv10)
    ensures KindBits(WithMove(w, kind, id)) == kind && IdBits(WithMove(w, kind, id)) == id
    ensures WithMove(w, kind, id).bits & 0x8000_03ff == w.bits & 0x8000_03ff
  {
  }

  lemma NoMoveBits(w: Word)
    ensures WithMove(w, 0, 0) == Word(w.bits & 0x8000_03ff)
  {
  }

  lemma FieldsOfPart(w: Word)
    ensures KindBits(ClearSize(w)) == KindBits(w) && IdBits(ClearSize(w)) == IdBits(w)
  {
  }

  /** The same two blocks, in whichever order. */
  predicate SameBlocks(a: Pair, b: Pair) { {a.first, a.second} == {b.first, b.second} }

  /** A move is recognised in whichever order its pair is listed. */
  lemma HiddenEitherWay(g: GState, a: Pair, b: Pair)
    requires SameBlocks(a, b)
    ensures HiddenIn(g, a) == HiddenIn(g, b)
  {
    hide SharesBlock;
    SharesExactly(Pair(g.first, g.second), a);
    SharesExactly(Pair(g.first, g.second), b);
  }

  /** The orphan count does not matter to the move. */
  lemma HiddenOfPart(g: GState, pair: Pair)
    ensures HiddenIn(OnDiskPart(g), pair) == HiddenIn(g, pair) && HasMove(OnDiskPart(g)) == HasMove(g)
  {
    hide KindBits, IdBits, ClearSize, Type1, SizeBits;
    FieldsOfPart(g.tag);
  }

  lemma HiddenSame(g: GState, h: GState, pair: Pair)
    requires OnDiskPart(g) == OnDiskPart(h)
    ensures HiddenIn(g, pair) == HiddenIn(h, pair) && HasMove(g) == HasMove(h)
  {
    hide HiddenIn, HasMove, OnDiskPart;
    HiddenOfPart(g, pair);
    HiddenOfPart(h, pair);
  }

  lemma DeleteIsMove()
    ensures Type1(TYPE_DELETE) != 0 && Type1(0) == 0
  {
  }

  /** Two addresses are those of one pair, in whichever order, exactly if the pairs have a block in common. */
  lemma SharesExactly(a: Pair, b: Pair)
    ensures SharesBlock(a, b) <==> {a.first, a.second} * {b.first, b.second} != {}
  {
    var both := {a.first, a.second} * {b.first, b.second};
    if SharesBlock(a, b) {
      assert a.first in both || a.second in both;
    }
  }

  /**
   * A prepared move hides its id in every pair that has a block in common with the one it was prepared for, in
   * whichever order either is listed, and nothing elsewhere; a cleared one hides nothing. The orphan count and its flag
   * stay.
   */
  lemma PreparedHides(g: GState, id: Option<nat>, pair: Pair, other: Pair)
    requires id.Some? ==> id.value < 0x3ff
    ensures HiddenIn(PrepMove(g, id, pair), pair) == id
    ensures HasMove(PrepMove(g, id, pair)) == id.Some?
    ensures HiddenIn(PrepMove(g, id, pair), other) ==
            if {pair.first, pair.second} * {other.first, other.second} != {} then id else None
    ensures !SharesBlock(pair, other) || id == None ==> HiddenIn(PrepMove(g, id, pair), other) == None
    ensures PrepMove(g, id, pair).tag.bits & 0x8000_03ff == g.tag.bits & 0x8000_03ff
    ensures id == None ==> PrepMove(g, id, pair) == GState(Word(g.tag.bits & 0x8000_03ff), Word(0), Word(0))
  {
    hide KindBits, IdBits, SizeBits, Type1, WithMove, SharesBlock;
    DeleteIsMove();
    SharesExactly(pair, pair);
    SharesExactly(pair, other);
    assert pair.first in {pair.first, pair.second} * {pair.first, pair.second};
    if id.Some? {
      NarrowRoundTrip(id.value);
      MoveFields(g.tag, TYPE_DELETE, id.value as bv10);
    } else {
      MoveFields(g.tag, 0, 0);
      NoMoveBits(g.tag);
    }
  }

  // ---- What the records of a rename do ----

  /** A delete takes one entry out. */
  lemma DeletedShows(log: seq<Rec>, at: nat, id: nat)
    ensures AttrsOf(log + [Rec(Tag(TYPE_DELETE, at, 0), [])], id) == AttrsOf(log, if at <= id then id + 1 else id)
  {
    hide Attrs;
    var r := Rec(Tag(TYPE_DELETE, at, 0), []);
    ReplaySnoc(log, r);
    ApplyEntry(Replay(log), r, id);
  }

  /** So hiding an entry shows what deleting it would leave. */
  lemma HiddenShows(log: seq<Rec>, hidden: Option<nat>, id: nat)
    ensures Shown(log, hidden, id) ==
            AttrsOf(log, if hidden.Some? && hidden.value <= id then id + 1 else id)
  {
    hide AttrsOf;
    if hidden.Some? {
      DeletedShows(log, hidden.value, id);
    }
  }

  lemma CreatedShows(log: seq<Rec>, at: nat, id: nat)
    ensures Entry(Replay(log + [Rec(Tag(TYPE_CREATE, at, 0), [])]), id) ==
            if id == at then [] else Entry(Replay(log), if at < id then id - 1 else id)
  {
    var r := Rec(Tag(TYPE_CREATE, at, 0), []);
    ReplaySnoc(log, r);
    ApplyEntry(Replay(log), r, id);
  }

  /** Attribute records under one id. */
  predicate AllUnder(recs: seq<Rec>, at: nat) {
    forall i | 0 <= i < |recs| :: recs[i].tag.id == at && IsAttr(recs[i].tag.kind) && recs[i].tag.kind != FROM_NOOP
  }

  function ValuesOf(recs: seq<Rec>): seq<Value> { seq(|recs|, i requires 0 <= i < |recs| => ValueOf(recs[i])) }

  lemma OneWritten(log: seq<Rec>, r: Rec, id: nat)
    requires IsAttr(r.tag.kind) && r.tag.kind != FROM_NOOP
    ensures Entry(Replay(log + [r]), id) ==
            if id == r.tag.id then Entry(Replay(log), id) + [ValueOf(r)] else Entry(Replay(log), id)
  {
    hide IsAttr;
    ReplaySnoc(log, r);
    AttrIsNoSplice(r);
    ApplyEntry(Replay(log), r, id);
  }

  lemma {:induction false} WrittenUnder(log: seq<Rec>, recs: seq<Rec>, at: nat, id: nat)
    requires AllUnder(recs, at)
    ensures Entry(Replay(log + recs), id) ==
            if id == at then Entry(Replay(log), id) + ValuesOf(recs) else Entry(Replay(log), id)
    decreases |recs|
  {
    hide IsAttr, Replay, Entry;
    if recs == [] {
      assert log + recs == log && ValuesOf(recs) == [];
    } else {
      var n := |recs| - 1;
      assert log + recs == (log + recs[..n]) + [recs[n]];
      WrittenUnder(log, recs[..n], at, id);
      OneWritten(log + recs[..n], recs[n], id);
      assert ValuesOf(recs) == ValuesOf(recs[..n]) + [ValueOf(recs[n])];
    }
  }

  lemma AttrIsNoSplice(r: Rec)
    requires IsAttr(r.tag.kind) && r.tag.kind != FROM_NOOP
    ensures r.tag.kind != TYPE_CREATE && r.tag.kind != TYPE_DELETE
  {
  }

  lemma {:induction false} LastWriteConcat(a: seq<Value>, b: seq<Value>, key: Slot)
    ensures LastWrite(a + b, key) == if LastWrite(b, key).Some? then LastWrite(b, key) else LastWrite(a, key)
    decreases |b|
  {
    hide Key;
    if b == [] {
      assert a + b == a;
    } else {
      assert (a + b)[..|a + b| - 1] == a + b[..|b| - 1];
      LastWriteConcat(a, b[..|b| - 1], key);
    }
  }

  /** A name followed by moved attributes: the name and those. */
  lemma NameAndMoved(name: Value, moved: seq<Value>)
    requires Key(name.kind) == Slot(TYPE_NAME) && !name.Deleted()
    requires forall i | 0 <= i < |moved| :: Key(moved[i].kind) != Slot(TYPE_NAME)
    ensures Attrs([name] + moved) == Attrs(moved)[Slot(TYPE_NAME) := name]
  {
    hide Key;
    var m, n := Attrs([name] + moved), Attrs(moved)[Slot(TYPE_NAME) := name];
    assert [name][..0] == [];
    forall key ensures Find(m, key) == Find(n, key) {
      AttrsIsLastWrite([name] + moved, key);
      AttrsIsLastWrite(moved, key);
      LastWriteConcat([name], moved, key);
      NeverWritten(moved, Slot(TYPE_NAME));
      assert LastWrite([name], key) == if key == Slot(TYPE_NAME) then Some(name) else None;
    }
    AttrsEqual(m, n);
  }

  lemma {:induction false} NeverWritten(values: seq<Value>, key: Slot)
    requires forall i | 0 <= i < |values| :: Key(values[i].kind) != key
    ensures LastWrite(values, key) == None
  {
    hide Key;
    if values != [] {
      NeverWritten(values[..|values| - 1], key);
    }
  }

  // ---- The attribute lists of a rename ----

  /** A delete record as the code commits it. */
  function DeleteOf(id: nat): Item { Plain(Rec(Tag(TYPE_DELETE, id, 0), [])) }

  /** The list committed to the new directory. over says that an entry under the new name is replaced. */
  function RenameItems(newid: nat, over: bool, name: Rec, src: seq<Rec>, oldid: nat,
                       alsoDelete: Option<nat>): seq<Item> {
    [if over then DeleteOf(newid) else Noop, Plain(Rec(Tag(TYPE_CREATE, newid, 0), [])), Plain(name),
     Move(newid, src, oldid), if alsoDelete.Some? then DeleteOf(alsoDelete.value) else Noop]
  }

  /** The moved tags, as they land in the new directory. */
  function MovedRecs(src: seq<Rec>, oldid: nat, newid: nat): seq<Rec>
    requires AllOnDisk(src)
  {
    EmitLog(src, [], MoveWindow(oldid, newid))
  }

  function Deletes(id: Option<nat>): seq<Rec> { if id.Some? then [Rec(Tag(TYPE_DELETE, id.value, 0), [])] else [] }

  function Replaced(newid: nat, over: bool): Option<nat> { if over then Some(newid) else None }

  /** A name tag fit to be committed. */
  predicate NameOk(name: Rec, newid: nat) {
    && Type1(name.tag.kind) == TYPE_NAME && name.tag.kind != FROM_NOOP && name.tag.id == newid
    && name.tag.size < DELETED_SIZE && |name.data| == name.tag.size
  }

  lemma SpliceSound(kind: bv11, id: nat)
    requires (kind == TYPE_DELETE || kind == TYPE_CREATE) && id < 1024
    ensures Carried(Rec(Tag(kind, id, 0), [])) && Type1(kind) != TYPE_TAIL && !IsAttr(kind)
  {
  }

  lemma NameSound(name: Rec, newid: nat)
    requires NameOk(name, newid) && newid < 1024
    ensures Carried(name) && Type1(name.tag.kind) != TYPE_TAIL && IsAttr(name.tag.kind) && !name.tag.IsDelete()
    ensures Key(name.tag.kind) == Slot(TYPE_NAME) && name.tag.kind != TYPE_CREATE && name.tag.kind != TYPE_DELETE
  {
    NameKey(name.tag.kind);
  }

  lemma NameKey(kind: bv11)
    requires Type1(kind) == TYPE_NAME && kind != FROM_NOOP
    ensures Key(kind) == Slot(TYPE_NAME) && IsAttr(kind) && Plainly(kind) && Type1(kind) != TYPE_TAIL
    ensures kind != TYPE_CREATE && kind != TYPE_DELETE && Type1(kind) != TYPE_SPLICE && Type1(kind) != TYPE_FROM
  {
  }

  /** The items of a rename are fit to be committed. */
  lemma RenameSound(newid: nat, over: bool, name: Rec, src: seq<Rec>, oldid: nat, also: Option<nat>)
    requires NameOk(name, newid) && AllSound(src) && AllShaped(src)
    requires newid < DELETED_SIZE && oldid < DELETED_SIZE && (also.Some? ==> also.value < 1024)
    ensures var items := RenameItems(newid, over, name, src, oldid, also);
            ItemsSound(items) && ItemsOk(items) && RemovalsFirst(items) && Harmless(items) && AllOnDisk(src)
  {
    hide Carried, NameOk, AllSound, AllShaped, TailOk, IsAttr, Type1, OnDisk, ItemOk, Harmless;
    var items := RenameItems(newid, over, name, src, oldid, also);
    NameSound(name, newid);
    SpliceSound(TYPE_CREATE, newid);
    SpliceSound(TYPE_DELETE, newid);
    if also.Some? {
      SpliceSound(TYPE_DELETE, also.value);
    }
    SoundIsOk(items);
    SoundIsSized(src);
    forall i | 0 <= i < |items| && (items[i].Move? || items[i].UserAttrs?) ensures NoRemovals(items[i + 1..]) {
      assert items[4..] == [items[4]];
    }
    RemovalsFirstIsHarmless(items);
  }

  lemma FlattenOne(item: Item, rest: seq<Item>)
    requires ItemOk(item) && ItemsOk(rest)
    ensures ItemsOk([item] + rest) && Flatten([item] + rest) == Expand(item, ItemTag(item).id) + Flatten(rest)
  {
    hide ItemOk, Expand;
    assert ([item] + rest)[1..] == rest;
  }

  lemma FlattenPlain(r: Rec, rest: seq<Item>)
    requires OnDisk(r) && ItemsOk(rest)
    ensures ItemsOk([Plain(r)] + rest) && Flatten([Plain(r)] + rest) == [r] + Flatten(rest)
  {
    hide OnDisk;
    FlattenOne(Plain(r), rest);
  }

  lemma FlattenOptional(id: Option<nat>, rest: seq<Item>)
    requires ItemsOk(rest)
    ensures var item := if id.Some? then DeleteOf(id.value) else Noop;
            ItemsOk([item] + rest) && Flatten([item] + rest) == Deletes(id) + Flatten(rest)
  {
    if id.Some? {
      SpliceOnDisk(TYPE_DELETE, id.value);
      FlattenPlain(Rec(Tag(TYPE_DELETE, id.value, 0), []), rest);
    } else {
      FlattenOne(Noop, rest);
    }
  }

  lemma SpliceOnDisk(kind: bv11, id: nat)
    requires kind == TYPE_DELETE || kind == TYPE_CREATE
    ensures OnDisk(Rec(Tag(kind, id, 0), []))
  {
  }

  lemma MoveFlat(newid: nat, src: seq<Rec>, oldid: nat, also: Option<nat>)
    requires ItemOk(Move(newid, src, oldid))
    ensures var d := [Move(newid, src, oldid)] + [if also.Some? then DeleteOf(also.value) else Noop];
            ItemsOk(d) && AllOnDisk(src) && Flatten(d) == MovedRecs(src, oldid, newid) + Deletes(also)
  {
    hide ItemOk, MovedRecs, Deletes, Flatten;
    var last := if also.Some? then DeleteOf(also.value) else Noop;
    FlattenOptional(also, []);
    FlattenNothing();
    assert [last] + [] == [last] && Deletes(also) + [] == Deletes(also);
    FlattenOne(Move(newid, src, oldid), [last]);
    MoveExpands(newid, src, oldid);
  }

  lemma FlattenNothing()
    ensures Flatten([]) == []
  {
  }

  /** The records of a rename. */
  lemma RenameFlat(newid: nat, over: bool, name: Rec, src: seq<Rec>, oldid: nat, also: Option<nat>)
    requires ItemsOk(RenameItems(newid, over, name, src, oldid, also)) && AllOnDisk(src) && OnDisk(name)
    ensures Flatten(RenameItems(newid, over, name, src, oldid, also)) ==
            Deletes(Replaced(newid, over)) + [Rec(Tag(TYPE_CREATE, newid, 0), [])] + [name]
              + MovedRecs(src, oldid, newid) + Deletes(also)
  {
    hide OnDisk, ItemOk, MovedRecs, Deletes, Flatten;
    var items := RenameItems(newid, over, name, src, oldid, also);
    var create := Rec(Tag(TYPE_CREATE, newid, 0), []);
    assert ItemOk(items[3]);
    MoveFlat(newid, src, oldid, also);
    var d := [items[3]] + [items[4]];
    FlattenPlain(name, d);
    SpliceOnDisk(TYPE_CREATE, newid);
    FlattenPlain(create, [items[2]] + d);
    FlattenOptional(Replaced(newid, over), [items[1]] + ([items[2]] + d));
    assert items == [items[0]] + ([items[1]] + ([items[2]] + d));
  }

  lemma MoveExpands(newid: nat, src: seq<Rec>, oldid: nat)
    requires ItemOk(Move(newid, src, oldid))
    ensures AllOnDisk(src)
    ensures Expand(Move(newid, src, oldid), ItemTag(Move(newid, src, oldid)).id) == MovedRecs(src, oldid, newid)
  {
  }

  lemma MovedKey(kind: bv11, w: Window)
    requires w == MoveWindow(w.begin, w.begin) || (w.kmask == 0x600 && w.kval == TYPE_STRUCT)
    requires w.kmask == 0x600 && w.kval == TYPE_STRUCT && w.Wants(kind)
    ensures Key(kind) != Slot(TYPE_NAME) && Type1(kind) != TYPE_NAME
  {
  }

  /** The moved tags: attributes under the new id, none of them a name. */
  lemma MovedUnder(src: seq<Rec>, oldid: nat, newid: nat)
    requires AllOnDisk(src)
    ensures var recs := MovedRecs(src, oldid, newid);
            AllUnder(recs, newid) && forall i | 0 <= i < |recs| ::
                 && Key(recs[i].tag.kind) != Slot(TYPE_NAME)
                 && Type1(recs[i].tag.kind) != TYPE_NAME
  {
    hide IsAttr, OnDisk, Key, Type1, EmitLog;
    var w, recs := MoveWindow(oldid, newid), MovedRecs(src, oldid, newid);
    MoveWants(w, 0);
    CoarseWantsAttrs();
    EmitLogInside(src, [], w);
    forall i | 0 <= i < |recs|
      ensures recs[i].tag.id == newid && Key(recs[i].tag.kind) != Slot(TYPE_NAME)
      ensures Type1(recs[i].tag.kind) != TYPE_NAME
    {
      MovedKey(recs[i].tag.kind, w);
    }
  }

  lemma CoarseWantsAttrs()
    ensures forall a: nat, b: nat :: WantsOnlyAttrs(MoveWindow(a, b))
  {
  }

  /** The attributes that the moved tags leave: all of the old entry but its name. */
  lemma MovedAttrs(src: seq<Rec>, oldid: nat, newid: nat)
    requires AllOnDisk(src)
    ensures Attrs(ValuesOf(MovedRecs(src, oldid, newid))) == Movable(AttrsOf(src, oldid))
  {
    hide Attrs, Movable, IsAttr, Key, Type1, OnDisk, EmitLog;
    var recs := MovedRecs(src, oldid, newid);
    MoveCopies(src, oldid, newid);
    MovedUnder(src, oldid, newid);
    WrittenUnder([], recs, newid, newid);
    NothingEntry(newid);
    assert [] + recs == recs && [] + ValuesOf(recs) == ValuesOf(recs);
  }

  lemma NothingEntry(id: nat)
    ensures Entry(Replay([]), id) == []
  {
  }

  /** The entry that a rename creates: the new name, everything else as it was. */
  function Renamed(name: Rec, src: seq<Rec>, oldid: nat): map<Slot, Value> {
    Movable(AttrsOf(src, oldid))[Slot(TYPE_NAME) := ValueOf(name)]
  }

  /** The id an entry had before a delete, if it survives it. */
  function BeforeDelete(id: nat, deleted: Option<nat>): nat {
    if deleted.Some? && deleted.value <= id then id + 1 else id
  }

  lemma DeletesShow(log: seq<Rec>, deleted: Option<nat>, id: nat)
    ensures Entry(Replay(log + Deletes(deleted)), id) == Entry(Replay(log), BeforeDelete(id, deleted))
  {
    if deleted.Some? {
      var r := Rec(Tag(TYPE_DELETE, deleted.value, 0), []);
      ReplaySnoc(log, r);
      ApplyEntry(Replay(log), r, id);
    } else {
      assert log + [] == log;
    }
  }

  /** The id an entry had before a rename, or None for the renamed entry itself. */
  function Origin(newid: nat, over: bool, also: Option<nat>, id: nat): Option<nat> {
    var j := BeforeDelete(id, also);
    if j == newid then None else Some(BeforeDelete(if newid < j then j - 1 else j, Replaced(newid, over)))
  }

  /** What each id of a directory shows after a rename into it. */
  function RenameShown(log: seq<Rec>, newid: nat, over: bool, name: Rec, src: seq<Rec>, oldid: nat, also: Option<nat>,
                       id: nat)
    : map<Slot, Value>
  {
    match Origin(newid, over, also, id)
    case None => Renamed(name, src, oldid)
    case Some(k) => AttrsOf(log, k)
  }

  /** Where the old entry is once the new one has been created in the same directory. */
  function ShiftedId(newid: nat, over: bool, oldid: nat): nat { if !over && newid <= oldid then oldid + 1 else oldid }

  /** Where the renamed entry ends up in its own directory. */
  function Landing(newid: nat, over: bool, oldid: nat): nat
    requires over ==> newid != oldid
  {
    if ShiftedId(newid, over, oldid) < newid then newid - 1 else newid
  }

  /** A rename of entry oldid within a directory of count entries. */
  predicate WithinOk(count: nat, newid: nat, over: bool, oldid: nat) {
    oldid < count && newid <= count - (if over then 1 else 0) && (over ==> newid != oldid)
  }

  /** Who an id belonged to before such a rename. */
  function WithinOrigin(newid: nat, over: bool, oldid: nat, id: nat): Option<nat> {
    Origin(newid, over, Some(ShiftedId(newid, over, oldid)), id)
  }

  /** The new entry is there once. */
  lemma WithinLands(count: nat, newid: nat, over: bool, oldid: nat, id: nat)
    requires WithinOk(count, newid, over, oldid)
    ensures WithinOrigin(newid, over, oldid, id) == None <==> id == Landing(newid, over, oldid)
    ensures Landing(newid, over, oldid) < count - (if over then 1 else 0)
  {
  }

  /** The old entry and a replaced one are gone. */
  lemma WithinRemoves(count: nat, newid: nat, over: bool, oldid: nat, id: nat)
    requires WithinOk(count, newid, over, oldid) && id < count - (if over then 1 else 0)
    requires WithinOrigin(newid, over, oldid, id).Some?
    ensures var k := WithinOrigin(newid, over, oldid, id).value; k < count && k != oldid && (over ==> k != newid)
  {
  }

  /** Every other entry is still there. */
  lemma WithinKeeps(count: nat, newid: nat, over: bool, oldid: nat, k: nat) returns (id: nat)
    requires WithinOk(count, newid, over, oldid) && k < count && k != oldid && (over ==> k != newid)
    ensures id < count - (if over then 1 else 0) && WithinOrigin(newid, over, oldid, id) == Some(k)
  {
    // past the replaced entry, then past the created one, then past the deleted one
    var a := if over && newid < k then k - 1 else k;
    var b := if newid <= a then a + 1 else a;
    id := if ShiftedId(newid, over, oldid) < b then b - 1 else b;
  }

  /** No entry is there twice. */
  lemma WithinDiffers(count: nat, newid: nat, over: bool, oldid: nat, id: nat, other: nat)
    requires WithinOk(count, newid, over, oldid) && id < other && WithinOrigin(newid, over, oldid, id).Some?
    ensures WithinOrigin(newid, over, oldid, id) != WithinOrigin(newid, over, oldid, other)
  {
  }

  /**
   * A rename within a directory is a move: the old entry and a replaced one are gone, the new entry is there once, and
   * every other entry is there once.
   */
  lemma RenameWithinMoves(count: nat, newid: nat, over: bool, oldid: nat)
    requires WithinOk(count, newid, over, oldid)
    ensures var n := count - (if over then 1 else 0);
            && Landing(newid, over, oldid) < n
            && (forall id: nat | id < n :: WithinOrigin(newid, over, oldid, id) == None <==>
               id == Landing(newid, over, oldid))
            && (forall id: nat | id < n && WithinOrigin(newid, over, oldid, id).Some? ::
                  var k := WithinOrigin(newid, over, oldid, id).value; k < count && k != oldid && (over ==> k != newid))
            && (forall id: nat, jd: nat | id < jd < n && WithinOrigin(newid, over, oldid, id).Some? ::
                  WithinOrigin(newid, over, oldid, id) != WithinOrigin(newid, over, oldid, jd))
            && (forall k: nat | k < count && k != oldid && (over ==> k != newid) ::
                  exists id: nat :: id < n && WithinOrigin(newid, over, oldid, id) == Some(k))
  {
    hide WithinOrigin, Landing;
    var n := count - (if over then 1 else 0);
    forall id: nat ensures WithinOrigin(newid, over, oldid, id) == None <==> id == Landing(newid, over, oldid) {
      WithinLands(count, newid, over, oldid, id);
    }
    WithinLands(count, newid, over, oldid, 0);
    forall id: nat | id < n && WithinOrigin(newid, over, oldid, id).Some?
      ensures var k := WithinOrigin(newid, over, oldid, id).value; k < count && k != oldid && (over ==> k != newid)
    {
      WithinRemoves(count, newid, over, oldid, id);
    }
    forall id: nat, jd: nat | id < jd < n && WithinOrigin(newid, over, oldid, id).Some?
      ensures WithinOrigin(newid, over, oldid, id) != WithinOrigin(newid, over, oldid, jd)
    {
      WithinDiffers(count, newid, over, oldid, id, jd);
    }
    forall k: nat | k < count && k != oldid && (over ==> k != newid)
      ensures exists id: nat :: id < n && WithinOrigin(newid, over, oldid, id) == Some(k)
    {
      var id := WithinKeeps(count, newid, over, oldid, k);
    }
  }

  lemma RenameShows(log: seq<Rec>, newid: nat, over: bool, name: Rec, src: seq<Rec>, oldid: nat, also: Option<nat>,
                    id: nat)
    requires NameOk(name, newid) && newid < 1024 && AllOnDisk(src)
    ensures var flat := Deletes(Replaced(newid, over)) + [Rec(Tag(TYPE_CREATE, newid, 0), [])] + [name]
                        + MovedRecs(src, oldid, newid) + Deletes(also);
            AttrsOf(log + flat, id) == RenameShown(log, newid, over, name, src, oldid, also, id)
  {
    hide Attrs, Movable, IsAttr, Key, Type1, OnDisk, EmitLog, MovedRecs, Replay, Entry, Deletes, NameOk, AllUnder;
    var create := Rec(Tag(TYPE_CREATE, newid, 0), []);
    var moved := MovedRecs(src, oldid, newid);
    var a := log + Deletes(Replaced(newid, over));
    var b := a + [create];
    var c := b + [name];
    var d := c + moved;
    assert log + (Deletes(Replaced(newid, over)) + [create] + [name] + moved + Deletes(also)) == d + Deletes(also);
    var j := BeforeDelete(id, also);
    DeletesShow(d, also, id);
    MovedUnder(src, oldid, newid);
    WrittenUnder(c, moved, newid, j);
    NameSound(name, newid);
    NameHasId(name, newid);
    OneWritten(b, name, j);
    CreatedShows(a, newid, j);
    if j == newid {
      assert Entry(Replay(d), j) == [ValueOf(name)] + ValuesOf(moved)
        by { assert [] + [ValueOf(name)] == [ValueOf(name)]; }
      NameAndMoved(ValueOf(name), ValuesOf(moved));
      MovedAttrs(src, oldid, newid);
    } else {
      DeletesShow(log, Replaced(newid, over), if newid < j then j - 1 else j);
    }
  }

  lemma CountOfAttr(d: Dir, r: Rec)
    requires IsAttr(r.tag.kind) && r.tag.kind != FROM_NOOP && (Type1(r.tag.kind) == TYPE_NAME ==> r.tag.id < d.count)
    ensures Apply(d, r).count == d.count
  {
    AttrIsNoSplice(r);
  }

  lemma {:induction false} CountOfMoved(log: seq<Rec>, recs: seq<Rec>, at: nat)
    requires AllUnder(recs, at) && forall i | 0 <= i < |recs| :: Type1(recs[i].tag.kind) != TYPE_NAME
    ensures Replay(log + recs).count == Replay(log).count
    decreases |recs|
  {
    hide IsAttr, Replay, Type1, Apply;
    if recs == [] {
      assert log + recs == log;
    } else {
      var n := |recs| - 1;
      assert log + recs == (log + recs[..n]) + [recs[n]];
      CountOfMoved(log, recs[..n], at);
      ReplaySnoc(log + recs[..n], recs[n]);
      CountOfAttr(Replay(log + recs[..n]), recs[n]);
    }
  }

  lemma CountOfDeletes(log: seq<Rec>, deleted: Option<nat>)
    ensures Replay(log + Deletes(deleted)).count == Replay(log).count - (if deleted.Some? then 1 else 0)
  {
    if deleted.Some? {
      ReplaySnoc(log, Rec(Tag(TYPE_DELETE, deleted.value, 0), []));
    } else {
      assert log + [] == log;
    }
  }

  lemma CountOfCreate(log: seq<Rec>, at: nat)
    ensures Replay(log + [Rec(Tag(TYPE_CREATE, at, 0), [])]).count == Replay(log).count + 1
  {
    ReplaySnoc(log, Rec(Tag(TYPE_CREATE, at, 0), []));
  }

  /** The number of entries after a rename. */
  lemma RenameCount(log: seq<Rec>, newid: nat, over: bool, name: Rec, src: seq<Rec>, oldid: nat, also: Option<nat>)
    requires NameOk(name, newid) && newid < 1024 && AllOnDisk(src)
    requires newid <= Replay(log).count - (if over then 1 else 0)
    ensures var flat := Deletes(Replaced(newid, over)) + [Rec(Tag(TYPE_CREATE, newid, 0), [])] + [name]
                        + MovedRecs(src, oldid, newid) + Deletes(also);
            Replay(log + flat).count == Replay(log).count + 1 - (if over then 1 else 0) - (if also.Some? then 1 else 0)
  {
    hide IsAttr, Key, Type1, OnDisk, EmitLog, MovedRecs, Replay, Deletes, NameOk, AllUnder, Apply;
    var create := Rec(Tag(TYPE_CREATE, newid, 0), []);
    var moved := MovedRecs(src, oldid, newid);
    var a := log + Deletes(Replaced(newid, over));
    var b := a + [create];
    var c := b + [name];
    assert log + (Deletes(Replaced(newid, over)) + [create] + [name] + moved + Deletes(also)) ==
      (c + moved) + Deletes(also);
    CountOfDeletes(log, Replaced(newid, over));
    CountOfCreate(a, newid);
    NameSound(name, newid);
    NameHasId(name, newid);
    ReplaySnoc(b, name);
    CountOfAttr(Replay(b), name);
    MovedUnder(src, oldid, newid);
    CountOfMoved(c, moved, newid);
    CountOfDeletes(c + moved, also);
  }

  lemma NameHasId(name: Rec, newid: nat)
    requires NameOk(name, newid)
    ensures name.tag.id == newid && name.tag.kind != FROM_NOOP
  {
  }

  // ---- File syncs ----

  /** The attributes of an entry with some user attributes set in order. */
  function WithUserAttrs(m: map<Slot, Value>, attrs: seq<UserAttr>): map<Slot, Value> {
    if attrs == [] then m
    else
      var a := attrs[|attrs| - 1];
      var kind := 0x300 + (a.kind as bv11);
      WithUserAttrs(m, attrs[..|attrs| - 1])[Slot(kind) := Value(kind, |a.data|, a.data)]
  }

  lemma UserAttrIs(id: nat, a: UserAttr)
    requires |a.data| < DELETED_SIZE
    ensures var kind := 0x300 + (a.kind as bv11);
            && ValueOf(UserAttrRec(id, a)) == Value(kind, |a.data|, a.data) && Key(kind) == Slot(kind)
            && IsAttr(kind) && kind != FROM_NOOP && UserAttrRec(id, a).tag.id == id
  {
  }

  lemma {:induction false} UserAttrsShow(values: seq<Value>, id: nat, attrs: seq<UserAttr>)
    requires forall i | 0 <= i < |attrs| :: |attrs[i].data| < DELETED_SIZE
    ensures AllUnder(UserAttrRecs(id, attrs), id)
    ensures Attrs(values + ValuesOf(UserAttrRecs(id, attrs))) == WithUserAttrs(Attrs(values), attrs)
    decreases |attrs|
  {
    hide Key, IsAttr, UserAttrRec, Attrs;
    if attrs == [] {
      assert ValuesOf([]) == [] && values + [] == values && UserAttrRecs(id, attrs) == [];
    } else {
      var n := |attrs| - 1;
      var front, a := UserAttrRecs(id, attrs[..n]), UserAttrRec(id, attrs[n]);
      UserAttrsShow(values, id, attrs[..n]);
      UserAttrIs(id, attrs[n]);
      assert UserAttrRecs(id, attrs) == front + [a];
      OneMoreValue(values, front, a);
      OneMoreAttr(values + ValuesOf(front), ValueOf(a));
    }
  }

  lemma OneMoreValue(values: seq<Value>, recs: seq<Rec>, r: Rec)
    ensures values + ValuesOf(recs + [r]) == (values + ValuesOf(recs)) + [ValueOf(r)]
  {
  }

  lemma OneMoreAttr(values: seq<Value>, v: Value)
    requires !v.Deleted()
    ensures Attrs(values + [v]) == Attrs(values)[Key(v.kind) := v]
  {
    hide Key;
    assert (values + [v])[..|values|] == values;
  }

  /**
   * The list that a file sync commits: the entry gets the new struct and the user attributes of the open file, keeps
   * its name and all other attributes, and no other entry changes.
   */
  lemma SyncShows(log: seq<Rec>, r: Rec, id: nat, attrs: seq<UserAttr>, j: nat)
    requires ItemsOk([Plain(r), UserAttrs(id, attrs)]) && r.tag.id == id && (r.tag.kind == 0x201 || r.tag.kind == 0x202)
    requires r.tag.size < DELETED_SIZE
    ensures AttrsOf(log + Flatten([Plain(r), UserAttrs(id, attrs)]), j) ==
            if j == id then WithUserAttrs(AttrsOf(log, id)[Slot(0x200) := Value(r.tag.kind, r.tag.size, r.data)], attrs)
            else AttrsOf(log, j)
  {
    hide Attrs, Replay, Entry, Key, IsAttr, OnDisk, ValuesOf;
    var recs := UserAttrRecs(id, attrs);
    var values := Entry(Replay(log), id);
    StructIs(r);
    FlattenNothing();
    assert [UserAttrs(id, attrs)] + [] == [UserAttrs(id, attrs)];
    assert [Plain(r)] + [UserAttrs(id, attrs)] == [Plain(r), UserAttrs(id, attrs)];
    assert ItemOk([Plain(r), UserAttrs(id, attrs)][0]) && ItemOk([Plain(r), UserAttrs(id, attrs)][1]);
    FlattenOne(UserAttrs(id, attrs), []);
    FlattenPlain(r, [UserAttrs(id, attrs)]);
    assert recs + [] == recs && log + ([r] + recs) == log + [r] + recs;
    UserAttrsShow(values + [ValueOf(r)], id, attrs);
    OneWritten(log, r, j);
    WrittenUnder(log + [r], recs, id, j);
    OneMoreAttr(values, ValueOf(r));
  }

  lemma StructIs(r: Rec)
    requires r.tag.kind == 0x201 || r.tag.kind == 0x202
    ensures IsAttr(r.tag.kind) && r.tag.kind != FROM_NOOP && Key(r.tag.kind) == Slot(0x200)
  {
  }
}
