/**
 * What a commit to a metadata pair means: the records an append or a compaction writes, and what the directory, the
 * stored move state and the tail pointer are afterwards.
 */
module Contents {
  import opened Words
  import opened Tags
  import opened Log
  import opened Checksum
  import opened Fetch
  import opened Commit
  import opened Lookup
  import opened Traverse
  import opened Compaction
  import opened GlobalState

  // ---- Records in good shape ----

  /** What the code relies on in the tags it reads back. */
  predicate Sound(r: Rec) { OnDisk(r) && WellSized(r) && (r.tag.kind == TYPE_CREATE ==> r.tag.size == 0) }

  predicate AllSound(log: seq<Rec>) { forall i | 0 <= i < |log| :: Sound(log[i]) }

  /** The fields fit and the data has the size the tag says. */
  predicate Shaped(r: Rec) { r.tag.Fits() && |r.data| == r.tag.DataSize() }

  predicate AllShaped(log: seq<Rec>) { forall i | 0 <= i < |log| :: Shaped(log[i]) }

  /** A record that a commit may carry besides the move state and the closing tags. */
  predicate Plainly(kind: bv11) { Type1(kind) != TYPE_CRC && Type1(kind) != TYPE_GLOBALS }

  predicate Carried(r: Rec) { Sound(r) && Shaped(r) && Plainly(r.tag.kind) }

  predicate AllCarried(recs: seq<Rec>) { forall i | 0 <= i < |recs| :: Carried(recs[i]) }

  /** A log read off a block is in good shape. */
  lemma {:induction false} EncodesShaped(block: seq<Byte>, off: nat, etag: Word, log: seq<Rec>)
    requires off <= |block| && Encodes(block, off, etag, log)
    ensures AllShaped(log)
    decreases |log|
  {
    hide Xor, BeAt, IdBits, KindBits, SizeBits;
    if log != [] {
      var at := off - log[|log| - 1].tag.DSize();
      EncodesShaped(block, at, Xor(BeAt(block, at), etag), log[..|log| - 1]);
    }
  }

  lemma PlainlyIsNoState(kind: bv11)
    requires Plainly(kind)
    ensures !Alike(0x7ff, TYPE_MOVESTATE, kind)
  {
  }

  lemma CarriedIsCommittable(recs: seq<Rec>)
    requires AllCarried(recs)
    ensures AllCommittable(recs) && Stateless(recs) && AllOnDisk(recs)
  {
    forall i | 0 <= i < |recs| ensures Committable(recs[i]) && !Alike(0x7ff, TYPE_MOVESTATE, recs[i].tag.kind) {
      assert Carried(recs[i]);
      PlainlyIsNoState(recs[i].tag.kind);
    }
    assert forall i | 0 <= i < |recs| :: Carried(recs[i]);
  }

  lemma AttrIsPlain(kind: bv11)
    requires IsAttr(kind) && kind != FROM_NOOP
    ensures Plainly(kind) && kind != TYPE_CREATE && Type1(kind) != TYPE_TAIL && Type1(kind) != TYPE_SPLICE
    ensures Type1(kind) != TYPE_FROM
  {
  }

  lemma AttrIsCarried(r: Rec)
    requires IsAttr(r.tag.kind) && r.tag.kind != FROM_NOOP && Shaped(r)
    ensures Carried(r)
  {
    hide IsAttr;
    AttrIsPlain(r.tag.kind);
  }

  /** What a traversal keeps of a log has the sizes it had. */
  lemma {:induction false} EmitLogShaped(log: seq<Rec>, later: seq<Rec>, w: Window)
    requires AllOnDisk(log) && AllOnDisk(later) && w.Valid() && AllShaped(log) && w.end + w.diff <= 1024
    ensures AllShaped(EmitLog(log, later, w))
  {
    hide OnDisk, FilterStep;
    if log != [] {
      EmitLogShaped(log[1..], later, w);
      FilterKeepsFields(log[0].tag, log[1..] + later);
    }
  }

  // ---- The attribute lists of callers ----

  /** An item of a commit: tags in good shape, ids and sizes within their fields. */
  predicate ItemSound(item: Item) {
    match item
    case Plain(r) => Carried(r) && (Type1(r.tag.kind) == TYPE_TAIL ==> TailOk(TailOf(r.data), r.tag.kind & 1 != 0))
    case Noop => true
    case Move(id, src, from) => AllSound(src) && AllShaped(src) && from < DELETED_SIZE && id < 1024
    case UserAttrs(id, attrs) =>
      id < 1024 && |attrs| < DELETED_SIZE && forall i | 0 <= i < |attrs| :: |attrs[i].data| < DELETED_SIZE
  }

  predicate ItemsSound(items: seq<Item>) { forall i | 0 <= i < |items| :: ItemSound(items[i]) }

  /** lfs_pair_isnull. */
  predicate IsNull(p: Pair) { p.first == NULL_BLOCK || p.second == NULL_BLOCK }

  /** Tails are whole: both addresses or none, and only a tail that is there can be a hard one. */
  predicate TailOk(tail: Pair, split: bool) { IsNull(tail) ==> tail == NULL_PAIR && !split }

  lemma SoundIsOk(items: seq<Item>)
    requires ItemsSound(items)
    ensures ItemsOk(items)
  {
    hide OnDisk, WellSized, Type1, TailOk, Shaped, Plainly;
    forall i | 0 <= i < |items| ensures ItemOk(items[i]) {
      assert ItemSound(items[i]);
      if items[i].Move? {
        assert AllSound(items[i].src);
      }
    }
  }

  lemma ShapedUserAttrs(id: nat, attrs: seq<UserAttr>)
    requires id < 1024 && forall i | 0 <= i < |attrs| :: |attrs[i].data| < DELETED_SIZE
    ensures AllShaped(UserAttrRecs(id, attrs))
  {
  }

  lemma ExpandShaped(item: Item, id: nat)
    requires ItemOk(item) && ItemSound(item) && id < 1024
    ensures AllShaped(Expand(item, id))
  {
    hide OnDisk, WellSized, Plainly, TailOk, TailOf, FilterStep;
    match item
    case Plain(r) =>
    case Noop =>
    case Move(_, src, from) => EmitLogShaped(src, [], MoveWindow(from, id));
    case UserAttrs(_, attrs) => ShapedUserAttrs(id, attrs);
  }

  lemma ExpandCarried(item: Item, id: nat)
    requires ItemOk(item) && ItemSound(item) && id < 1024
    ensures AllCarried(Expand(item, id))
  {
    hide IsAttr, Sound, Plainly, Expand, TailOk, TailOf, OnDisk, ItemOk;
    ExpandShaped(item, id);
    if item.Plain? {
      PlainRenumbered(item.rec, id);
    } else {
      ExpandInside(item, id);
      forall i | 0 <= i < |Expand(item, id)| ensures Carried(Expand(item, id)[i]) {
        AttrIsCarried(Expand(item, id)[i]);
      }
    }
  }

  lemma PlainRenumbered(r: Rec, id: nat)
    requires Carried(r) && id < 1024
    ensures AllCarried(Expand(Plain(r), id))
  {
  }

  lemma {:induction false} FlattenCarried(items: seq<Item>)
    requires ItemsOk(items) && ItemsSound(items)
    ensures AllCarried(Flatten(items))
  {
    hide Carried, Expand, ItemOk;
    if items != [] {
      FlattenCarried(items[1..]);
      ItemIdFits(items[0]);
      ExpandCarried(items[0], ItemTag(items[0]).id);
    }
  }

  lemma ItemIdFits(item: Item)
    requires ItemSound(item)
    ensures ItemTag(item).id < 1024
  {
  }

  lemma KeepItemShaped(item: Item, later: seq<Rec>, w: Window)
    requires ItemOk(item) && ItemSound(item) && AllOnDisk(later) && w.Valid() && w.end + w.diff <= 1024
    ensures AllShaped(KeepItem(item, later, w))
  {
    hide OnDisk, FilterStep, Expand, ItemOk, ItemSound;
    if KeepItem(item, later, w) != [] {
      ExpandShaped(item, Filter(ItemTag(item), later).value.id + w.diff);
    }
  }

  lemma {:induction false} EmitItemsShaped(items: seq<Item>, w: Window)
    requires ItemsOk(items) && ItemsSound(items) && w.Valid() && w.end + w.diff <= 1024
    ensures AllShaped(EmitItems(items, w))
  {
    hide KeepItem, ItemOk, ItemSound, Shaped;
    if items != [] {
      EmitItemsShaped(items[1..], w);
      FlattenOnDisk(items[1..]);
      KeepItemShaped(items[0], Flatten(items[1..]), w);
    }
  }

  /** What a compaction writes is fit to be committed. */
  lemma EmitCarried(log: seq<Rec>, items: seq<Item>, n: nat)
    requires AllOnDisk(log) && AllShaped(log) && ItemsOk(items) && ItemsSound(items) && n <= 1024
    ensures AllCarried(Emit(log, items, CompactWindow(0, n)))
    ensures forall i | 0 <= i < |Emit(log, items, CompactWindow(0, n))| ::
              Type1(Emit(log, items, CompactWindow(0, n))[i].tag.kind) != TYPE_TAIL
  {
    hide EmitLog, EmitItems, OnDisk, ItemOk, ItemSound, Carried, IsAttr;
    var out := Emit(log, items, CompactWindow(0, n));
    FlattenOnDisk(items);
    EmitLogShaped(log, Flatten(items), CompactWindow(0, n));
    EmitItemsShaped(items, CompactWindow(0, n));
    EmitInside(log, items, 0, n);
    forall i | 0 <= i < |out| ensures Carried(out[i]) && Type1(out[i].tag.kind) != TYPE_TAIL {
      AttrIsCarried(out[i]);
      AttrIsPlain(out[i].tag.kind);
    }
  }

  // ---- The tail pointer ----

  datatype Tail = Tail(pair: Pair, split: bool)

  /** The tail after some records: the last one committed. */
  function TailAfter(t: Tail, recs: seq<Rec>): Tail
    requires AllCommittable(recs)
    decreases |recs|
  {
    if recs == [] then t
    else
      var r := recs[0];
      TailAfter(if Type1(r.tag.kind) == TYPE_TAIL then Tail(TailOf(r.data), r.tag.kind & 1 != 0) else t, recs[1..])
  }

  lemma {:induction false} AdvanceTail(st: State, recs: seq<Rec>)
    requires AllCommittable(recs)
    ensures Tail(Advance(st, recs).tail, Advance(st, recs).split) == TailAfter(Tail(st.tail, st.split), recs)
    decreases |recs|
  {
    hide Crc, EncodeRec, Pack, Type1;
    if recs != [] {
      AdvanceTail(AdvanceOne(st, recs[0]), recs[1..]);
    }
  }

  predicate Tailless(recs: seq<Rec>) { forall i | 0 <= i < |recs| :: Type1(recs[i].tag.kind) != TYPE_TAIL }

  lemma {:induction false} TailKept(t: Tail, recs: seq<Rec>)
    requires AllCommittable(recs) && Tailless(recs)
    ensures TailAfter(t, recs) == t
    decreases |recs|
  {
    hide Committable, TailOf, Type1;
    if recs != [] {
      TailKept(t, recs[1..]);
    }
  }

  lemma {:induction false} TailConcat(t: Tail, a: seq<Rec>, b: seq<Rec>)
    requires AllCommittable(a) && AllCommittable(b)
    ensures TailAfter(t, a + b) == TailAfter(TailAfter(t, a), b)
    decreases |a|
  {
    hide TailOf, Type1;
    if a == [] {
      assert [] + b == b;
    } else {
      assert (a + b)[0] == a[0] && (a + b)[1..] == a[1..] + b;
      var r := a[0];
      TailConcat(if Type1(r.tag.kind) == TYPE_TAIL then Tail(TailOf(r.data), r.tag.kind & 1 != 0) else t, a[1..], b);
    }
  }

  /** The loop of lfs_dir_commit that follows the tail through an attribute list. */
  function ItemsTail(t: Tail, items: seq<Item>): Tail
    requires ItemsSound(items)
    decreases |items|
  {
    if items == [] then t
    else
      var next := if items[0].Plain? && Type1(items[0].rec.tag.kind) == TYPE_TAIL
                  then Tail(TailOf(items[0].rec.data), items[0].rec.tag.kind & 1 != 0) else t;
      ItemsTail(next, items[1..])
  }

  lemma {:induction false} ItemsTailOk(t: Tail, items: seq<Item>)
    requires ItemsSound(items) && TailOk(t.pair, t.split)
    ensures TailOk(ItemsTail(t, items).pair, ItemsTail(t, items).split)
    decreases |items|
  {
    hide TailOk, TailOf, OnDisk;
    if items != [] {
      assert ItemSound(items[0]);
      var next := if items[0].Plain? && Type1(items[0].rec.tag.kind) == TYPE_TAIL
                  then Tail(TailOf(items[0].rec.data), items[0].rec.tag.kind & 1 != 0) else t;
      ItemsTailOk(next, items[1..]);
    }
  }

  lemma ExpandTail(t: Tail, item: Item)
    requires ItemOk(item) && ItemSound(item)
    ensures AllCommittable(Expand(item, ItemTag(item).id))
    ensures TailAfter(t, Expand(item, ItemTag(item).id)) ==
            if item.Plain? && Type1(item.rec.tag.kind) == TYPE_TAIL
            then Tail(TailOf(item.rec.data), item.rec.tag.kind & 1 != 0) else t
  {
    hide Carried, OnDisk, IsAttr, TailOk, TailOf, ItemOk;
    var recs := Expand(item, ItemTag(item).id);
    ItemIdFits(item);
    ExpandCarried(item, ItemTag(item).id);
    CarriedIsCommittable(recs);
    if item.Plain? {
      assert recs[1..] == [];
    } else {
      ExpandInside(item, ItemTag(item).id);
      forall i | 0 <= i < |recs| ensures Type1(recs[i].tag.kind) != TYPE_TAIL {
        AttrIsPlain(recs[i].tag.kind);
      }
      TailKept(t, recs);
    }
  }

  /** The tail that the code follows is the one that a fetch will find. */
  lemma {:induction false} TailAfterFlatten(t: Tail, items: seq<Item>)
    requires ItemsOk(items) && ItemsSound(items)
    ensures AllCommittable(Flatten(items)) && TailAfter(t, Flatten(items)) == ItemsTail(t, items)
    decreases |items|
  {
    hide ItemOk, Committable, TailOf, Type1, Expand, TailOk;
    FlattenCarried(items);
    CarriedIsCommittable(Flatten(items));
    if items != [] {
      FlattenCarried(items[1..]);
      CarriedIsCommittable(Flatten(items[1..]));
      ExpandTail(t, items[0]);
      TailConcat(t, Expand(items[0], ItemTag(items[0]).id), Flatten(items[1..]));
      TailAfterFlatten(TailAfter(t, Expand(items[0], ItemTag(items[0]).id)), items[1..]);
    }
  }

  // ---- What is written ----

  function TailRec(t: Tail): Rec {
    Rec(Tag(if t.split then TYPE_TAIL + 1 else TYPE_TAIL, NO_ID, 8), ToLe(t.pair.first) + ToLe(t.pair.second))
  }

  /** What an append writes: the attributes, and the move state if it changes. */
  function AppendRecs(log: seq<Rec>, items: seq<Item>, delta: GState): seq<Rec>
    requires ItemsOk(items)
  {
    Flatten(items) + (if delta == ZERO then [] else [StateRec(XorG(delta, Stored(log)))])
  }

  /** What a compaction writes behind the attributes: the tail if there is one, the move state unless it is zero. */
  function CompactEnd(log: seq<Rec>, t: Tail, delta: GState): seq<Rec> {
    (if IsNull(t.pair) then [] else [TailRec(t)])
    + (if XorG(delta, Stored(log)) == ZERO then [] else [StateRec(XorG(delta, Stored(log)))])
  }

  /** Everything a compaction writes. */
  function CompactRecs(log: seq<Rec>, items: seq<Item>, n: nat, t: Tail, delta: GState): seq<Rec>
    requires AllOnDisk(log) && ItemsOk(items)
  {
    Emit(log, items, CompactWindow(0, n)) + CompactEnd(log, t, delta)
  }

  lemma SpecialKinds()
    ensures Type1(TYPE_MOVESTATE) == TYPE_GLOBALS && Type1(TYPE_TAIL) == TYPE_TAIL && Type1(TYPE_TAIL + 1) == TYPE_TAIL
    ensures Plainly(TYPE_TAIL) && Plainly(TYPE_TAIL + 1)
    ensures (TYPE_TAIL + 1) & 1 != 0 && TYPE_TAIL & 1 == 0
    ensures Silent(TYPE_TAIL) && Silent(TYPE_TAIL + 1) && Silent(TYPE_MOVESTATE)
  {
  }

  lemma StateRecSound(g: GState)
    ensures Sound(StateRec(g)) && Committable(StateRec(g)) && Type1(StateRec(g).tag.kind) != TYPE_TAIL
    ensures Silent(StateRec(g).tag.kind)
  {
    hide StateBytes;
    SpecialKinds();
  }

  lemma TailRecSound(t: Tail)
    ensures Carried(TailRec(t)) && Silent(TailRec(t).tag.kind)
    ensures TailOf(TailRec(t).data) == t.pair && Type1(TailRec(t).tag.kind) == TYPE_TAIL
    ensures (TailRec(t).tag.kind & 1 != 0) == t.split
  {
    hide IsAttr, Plainly;
    SpecialKinds();
    WordRoundTrip(t.pair.first);
    WordRoundTrip(t.pair.second);
    assert TailRec(t).data[..4] == ToLe(t.pair.first) && TailRec(t).data[4..] == ToLe(t.pair.second);
  }

  // ---- What it means ----

  /** Types that a replay passes over. */
  predicate Silent(kind: bv11) { !IsAttr(kind) && kind != TYPE_CREATE && kind != TYPE_DELETE }

  predicate AllSilent(recs: seq<Rec>) { forall i | 0 <= i < |recs| :: Silent(recs[i].tag.kind) }

  lemma {:induction false} ReplaySilent(log: seq<Rec>, recs: seq<Rec>)
    requires AllSilent(recs)
    ensures Replay(log + recs) == Replay(log)
    decreases |recs|
  {
    hide IsAttr;
    if recs == [] {
      assert log + recs == log;
    } else {
      var n := |recs| - 1;
      assert log + recs == (log + recs[..n]) + [recs[n]];
      ReplaySilent(log, recs[..n]);
      ReplaySnoc(log + recs[..n], recs[n]);
      assert Silent(recs[n].tag.kind);
    }
  }

  /** CRC tags mean nothing to a directory. */
  lemma CrcsAreSilent(recs: seq<Rec>)
    requires OnlyCrcs(recs)
    ensures AllSilent(recs) && Stateless(recs)
  {
    hide Silent, Alike;
    forall i | 0 <= i < |recs| ensures Silent(recs[i].tag.kind) && !Alike(0x7ff, TYPE_MOVESTATE, recs[i].tag.kind) {
      CrcKind(recs[i].tag.kind);
    }
  }

  lemma CrcIsSilent(recs: seq<Rec>)
    requires AllCrc(recs)
    ensures AllSilent(recs) && Stateless(recs) && AllSound(recs) && OnlyCrcs(recs)
  {
    hide WellSized;
    forall i | 0 <= i < |recs|
      ensures Silent(recs[i].tag.kind) && !Alike(0x7ff, TYPE_MOVESTATE, recs[i].tag.kind) && OnDisk(recs[i])
      ensures recs[i].tag.kind != TYPE_CREATE
    {
      CrcKind(recs[i].tag.kind);
    }
    assert forall i | 0 <= i < |recs| :: Type1(recs[i].tag.kind) == TYPE_CRC && WellSized(recs[i]);
  }

  lemma CrcKind(kind: bv11)
    requires Type1(kind) == TYPE_CRC
    ensures Silent(kind) && !Alike(0x7ff, TYPE_MOVESTATE, kind)
    ensures kind != TYPE_CREATE && Type1(kind) != TYPE_SPLICE && Type1(kind) != TYPE_FROM && kind != FROM_NOOP
  {
  }

  /** Two logs mean the same n entries, with the same attributes. */
  predicate SameEntries(after: seq<Rec>, before: seq<Rec>, n: nat) {
    && Replay(after).count == n
    && forall id: nat | id < n :: Attrs(Entry(Replay(after), id)) == Attrs(Entry(Replay(before), id))
  }

  /** Every id of a directory has a name. */
  predicate AllNamed(log: seq<Rec>, n: nat) { forall id: nat | id < n :: HasName(Replay(log), id) }

  lemma AppendMeans(log: seq<Rec>, items: seq<Item>, delta: GState, crcs: seq<Rec>, n: nat)
    requires ItemsOk(items) && ItemsSound(items) && OnlyCrcs(crcs) && Replay(log + Flatten(items)).count == n
    ensures var all := log + AppendRecs(log, items, delta) + crcs;
            SameEntries(all, log + Flatten(items), n) && Stored(all) == XorG(Stored(log), delta)
  {
    hide Stored, Flatten, Replay, AllCarried, Silent, Committable, Sound, Attrs, Entry;
    var flat, x := Flatten(items), XorG(delta, Stored(log));
    var s := if delta == ZERO then [] else [StateRec(x)];
    var all := log + AppendRecs(log, items, delta) + crcs;
    FlattenCarried(items);
    CarriedIsCommittable(flat);
    CrcsAreSilent(crcs);
    StateRecSound(x);
    assert all == (log + flat) + s + crcs;
    ReplaySilent(log + flat, s);
    ReplaySilent((log + flat) + s, crcs);
    StoredSkips((log + flat) + s, crcs);
    StoredSkips(log, flat);
    XorGCommutes(delta, Stored(log));
    if delta == ZERO {
      assert (log + flat) + s == log + flat;
      XorGZero(Stored(log));
    } else {
      StoredReplaced(log + flat, x);
    }
  }

  lemma XorGCommutes(a: GState, b: GState)
    ensures XorG(a, b) == XorG(b, a)
  {
    hide Xor;
    XorSymmetric(a.tag, b.tag);
    XorSymmetric(a.first, b.first);
    XorSymmetric(a.second, b.second);
  }

  lemma StoredNothing()
    ensures Stored([]) == ZERO
  {
  }

  /** The records behind the attributes of a compaction mean nothing to the entries. */
  lemma CompactEndSilent(log: seq<Rec>, t: Tail, delta: GState)
    ensures AllSilent(CompactEnd(log, t, delta)) && AllCommittable(CompactEnd(log, t, delta))
    ensures AllSound(CompactEnd(log, t, delta))
  {
    hide Silent, Committable, Sound, Stored;
    TailRecSound(t);
    CarriedIsCommittable([TailRec(t)]);
    assert [TailRec(t)][0] == TailRec(t);
    StateRecSound(XorG(delta, Stored(log)));
  }

  lemma CompactEndStored(out: seq<Rec>, log: seq<Rec>, t: Tail, delta: GState)
    requires Stateless(out)
    ensures Stored(out + CompactEnd(log, t, delta)) == XorG(Stored(log), delta)
  {
    hide Silent, Committable, Sound, Stored;
    var x := XorG(delta, Stored(log));
    var ts := if IsNull(t.pair) then [] else [TailRec(t)];
    XorGCommutes(delta, Stored(log));
    TailRecSound(t);
    CarriedIsCommittable([TailRec(t)]);
    assert out + CompactEnd(log, t, delta) == (out + ts) + (if x == ZERO then [] else [StateRec(x)]);
    if x == ZERO {
      assert [] + (out + ts) == out + CompactEnd(log, t, delta);
      StoredSkips([], out + ts);
      StoredNothing();
    } else {
      StoredReplaced(out + ts, x);
    }
  }

  lemma CompactMeans(log: seq<Rec>, items: seq<Item>, delta: GState, crcs: seq<Rec>, n: nat, t: Tail)
    requires AllOnDisk(log) && AllShaped(log) && ItemsOk(items) && ItemsSound(items) && Harmless(items) && n <= 1024
    requires OnlyCrcs(crcs) && AllNamed(log + Flatten(items), n)
    ensures var all := CompactRecs(log, items, n, t, delta) + crcs;
            SameEntries(all, log + Flatten(items), n) && Stored(all) == XorG(Stored(log), delta)
  {
    hide Stored, Flatten, Replay, AllCarried, Silent, Committable, Sound, Attrs, Entry, Emit, CompactEnd, AllOnDisk,
         Harmless, ItemOk, HasName;
    var out := Emit(log, items, CompactWindow(0, n));
    EmitCarried(log, items, n);
    CarriedIsCommittable(out);
    CompactionPreserves(log, items, 0, n);
    CompactEndSilent(log, t, delta);
    CompactEndStored(out, log, t, delta);
    CrcsAreSilent(crcs);
    ReplaySilent(out, CompactEnd(log, t, delta));
    ReplaySilent(out + CompactEnd(log, t, delta), crcs);
    StoredSkips(out + CompactEnd(log, t, delta), crcs);
    if n > 0 {
      assert HasName(Replay(log + Flatten(items)), n - 1);
    }
  }

  /** The tail a fetch finds after a compaction. */
  lemma CompactTail(log: seq<Rec>, items: seq<Item>, n: nat, t: Tail, delta: GState)
    requires AllOnDisk(log) && AllShaped(log) && ItemsOk(items) && ItemsSound(items) && n <= 1024
    requires TailOk(t.pair, t.split)
    ensures AllCommittable(CompactRecs(log, items, n, t, delta))
    ensures TailAfter(Tail(NULL_PAIR, false), CompactRecs(log, items, n, t, delta)) == t
  {
    hide Stored, Emit, Type1, Committable, Silent, Sound, XorG;
    var out, none := Emit(log, items, CompactWindow(0, n)), Tail(NULL_PAIR, false);
    var ts := if IsNull(t.pair) then [] else [TailRec(t)];
    var s := if XorG(delta, Stored(log)) == ZERO then [] else [StateRec(XorG(delta, Stored(log)))];
    EmitCarried(log, items, n);
    CarriedIsCommittable(out);
    CompactEndSilent(log, t, delta);
    TailKept(none, out);
    TailConcat(none, out, CompactEnd(log, t, delta));
    TailRecSound(t);
    StateRecSound(XorG(delta, Stored(log)));
    CarriedIsCommittable([TailRec(t)]);
    TailConcat(none, ts, s);
    TailOfOne(none, t);
    TailKept(TailAfter(none, ts), s);
  }

  lemma TailOfOne(none: Tail, t: Tail)
    ensures AllCommittable([TailRec(t)]) && TailAfter(none, [TailRec(t)]) == t && TailAfter(none, []) == none
  {
    hide TailRec, TailOf, Type1, Committable, Carried;
    TailRecSound(t);
    CarriedIsCommittable([TailRec(t)]);
    assert [TailRec(t)][1..] == [];
  }

  // ---- A commit, as a fetch sees it ----

  /** The part of a fetched log behind the records of the last commit. */
  function Closing(f: Found, e: State): seq<Rec>
    requires |e.log| <= |f.log|
  {
    f.log[|e.log|..]
  }

  lemma AppendSound(log: seq<Rec>, items: seq<Item>, delta: GState)
    requires ItemsOk(items) && ItemsSound(items) && AllSound(log)
    ensures AllCommittable(AppendRecs(log, items, delta)) && AllSound(log + AppendRecs(log, items, delta))
  {
    hide Sound, Committable, Stored, XorG, StateBytes, Flatten, Shaped, Plainly;
    FlattenCarried(items);
    CarriedIsCommittable(Flatten(items));
    StateRecSound(XorG(delta, Stored(log)));
    assert forall i | 0 <= i < |Flatten(items)| :: Carried(Flatten(items)[i]);
  }

  lemma CompactSound(log: seq<Rec>, items: seq<Item>, n: nat, t: Tail, delta: GState)
    requires AllOnDisk(log) && AllShaped(log) && ItemsOk(items) && ItemsSound(items) && n <= 1024
    ensures AllCommittable(CompactRecs(log, items, n, t, delta)) && AllSound(CompactRecs(log, items, n, t, delta))
  {
    hide Sound, Committable, Stored, XorG, CompactEnd, Emit, OnDisk, Shaped, Plainly, ItemOk, ItemSound;
    var out := Emit(log, items, CompactWindow(0, n));
    EmitCarried(log, items, n);
    CarriedIsCommittable(out);
    CompactEndSilent(log, t, delta);
    assert forall i | 0 <= i < |out| :: Carried(out[i]);
  }

  /** What a fetch finds after an append: the old log, the new records, closing tags, and the tail they leave. */
  lemma AppendFetched(block: seq<Byte>, prog: nat, f: Found, log: seq<Rec>, items: seq<Item>, delta: GState, n: nat,
                      t: Tail)
    requires |block| >= 4 && prog > 0 && f == FetchBlock(block, prog).found && f.log == log && f.off > 0
    requires ItemsOk(items) && ItemsSound(items) && AllSound(log) && t == ItemsTail(Tail(f.tail, f.split), items)
    requires AllCommittable(AppendRecs(log, items, delta))
    requires CommitEnd(Advance(Resume(f), AppendRecs(log, items, delta)).off, prog) <= |block|
    requires Replay(log + Flatten(items)).count == n
    ensures var recs := AppendRecs(log, items, delta);
            var c, end := Committed(block, Resume(f), recs, prog), CommitEnd(Advance(Resume(f), recs).off, prog);
            var g := FetchBlock(c.block, prog).found;
            && g == Found(end, c.ptag, g.log, t.pair, t.split) && AllSound(g.log)
            && SameEntries(g.log, log + Flatten(items), n) && Stored(g.log) == XorG(Stored(log), delta)
  {
    hide FetchBlock, Sound, Advance, Committed, Committable, Stored, SameEntries, Flatten, AllCarried, Scan, AppendRecs,
         CommitEnd;
    var recs, st := AppendRecs(log, items, delta), Resume(f);
    assert forall i | 0 <= i < |log| :: Sound(log[i]);
    SoundIsSized(log);
    AppendThenFetch(block, prog, recs);
    var g, e := FetchBlock(Committed(block, st, recs, prog).block, prog).found, Advance(st, recs);
    AdvanceShape(st, recs);
    AdvanceTail(st, recs);
    AppendTail(Tail(f.tail, f.split), log, items, delta);
    AppendSound(log, items, delta);
    CrcIsSilent(Closing(g, e));
    assert g.log == log + recs + Closing(g, e);
    AppendMeans(log, items, delta, Closing(g, e), n);
  }

  lemma SoundIsSized(log: seq<Rec>)
    requires AllSound(log)
    ensures AllWellSized(log) && AllOnDisk(log)
  {
    hide WellSized, OnDisk;
    assert forall i | 0 <= i < |log| :: Sound(log[i]);
  }

  lemma AppendTail(t: Tail, log: seq<Rec>, items: seq<Item>, delta: GState)
    requires ItemsOk(items) && ItemsSound(items) && AllCommittable(AppendRecs(log, items, delta))
    ensures TailAfter(t, AppendRecs(log, items, delta)) == ItemsTail(t, items)
  {
    hide Stored, XorG, Flatten, Committable, Type1, TailOf, StateRec, Silent, Sound, ItemOk, ItemSound;
    var x := XorG(delta, Stored(log));
    var s := if delta == ZERO then [] else [StateRec(x)];
    TailAfterFlatten(t, items);
    StateRecSound(x);
    TailConcat(t, Flatten(items), s);
    TailKept(TailAfter(t, Flatten(items)), s);
  }

  /** A block freshly written by a compaction: the revision, then one commit. */
  function Compacted(blank: seq<Byte>, rev: Word, recs: seq<Rec>, prog: nat): (c: Closed)
    requires |blank| >= 4 && AllCommittable(recs) && prog > 0
    requires var b := Put(blank, 0, ToLe(rev)); CommitEnd(Advance(Start(b), recs).off, prog) <= |blank|
    ensures |c.block| == |blank|
  {
    var b := Put(blank, 0, ToLe(rev));
    Committed(b, Start(b), recs, prog)
  }

  lemma CompactedFetch(blank: seq<Byte>, rev: Word, recs: seq<Rec>, prog: nat)
    requires |blank| >= 4 && AllCommittable(recs) && prog > 0
    requires var b := Put(blank, 0, ToLe(rev)); CommitEnd(Advance(Start(b), recs).off, prog) <= |blank|
    ensures var e := Advance(Start(Put(blank, 0, ToLe(rev))), recs);
            var c := Compacted(blank, rev, recs, prog);
            ClosedState(FetchBlock(c.block, prog).found, e, CommitEnd(e.off, prog), c.ptag)
    ensures LeAt(Compacted(blank, rev, recs, prog).block, 0) == rev
  {
    hide Scan, Advance, Committed, CommitEnd, FromLe, ToLe, Crc, ClosedState, Encode, Committable;
    var b := Put(blank, 0, ToLe(rev));
    var c := Compacted(blank, rev, recs, prog).block;
    CommittedFrame(b, Start(b), recs, prog);
    assert c[0..4] == c[..4] == b[..4] == b[0..4] == ToLe(rev);
    WordRoundTrip(rev);
    ScanReadsCommit(b, prog, Start(b), recs);
  }

  /** What a fetch finds after a compaction. */
  lemma CompactFetched(blank: seq<Byte>, rev: Word, prog: nat, log: seq<Rec>, items: seq<Item>, delta: GState, n: nat,
                       t: Tail)
    requires |blank| >= 4 && prog > 0 && AllSound(log) && AllShaped(log) && ItemsOk(items) && ItemsSound(items)
    requires Harmless(items)
    requires n <= 1024 && TailOk(t.pair, t.split) && AllOnDisk(log) && AllNamed(log + Flatten(items), n)
    requires var recs := CompactRecs(log, items, n, t, delta);
             AllCommittable(recs) && CommitEnd(Advance(Start(Put(blank, 0, ToLe(rev))), recs).off, prog) <= |blank|
    ensures var recs := CompactRecs(log, items, n, t, delta);
            var c, end := Compacted(blank, rev, recs, prog),
              CommitEnd(Advance(Start(Put(blank, 0, ToLe(rev))), recs).off, prog);
            var g := FetchBlock(c.block, prog).found;
            && g == Found(end, c.ptag, g.log, t.pair, t.split) && AllSound(g.log) && LeAt(c.block, 0) == rev
            && SameEntries(g.log, log + Flatten(items), n) && Stored(g.log) == XorG(Stored(log), delta)
  {
    hide FetchBlock, Sound, Advance, Compacted, Committable, Stored, SameEntries, Flatten, AllCarried, Scan,
         CompactRecs, CommitEnd, Put, ToLe, FromLe, Crc, AllNamed, Harmless, OnDisk, Shaped, ItemOk, ItemSound, TailOk;
    var recs, st := CompactRecs(log, items, n, t, delta), Start(Put(blank, 0, ToLe(rev)));
    CompactedFetch(blank, rev, recs, prog);
    var g, e := FetchBlock(Compacted(blank, rev, recs, prog).block, prog).found, Advance(st, recs);
    AdvanceShape(st, recs);
    AdvanceTail(st, recs);
    CompactTail(log, items, n, t, delta);
    CompactSound(log, items, n, t, delta);
    CrcIsSilent(Closing(g, e));
    assert [] + recs == recs;
    assert g.log == recs + Closing(g, e);
    CompactMeans(log, items, delta, Closing(g, e), n, t);
  }
}
