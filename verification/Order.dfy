/** What keeps a metadata log in the order that a search for a name relies on: deletes, creates, compactions. */
module Order {
  import opened Words
  import opened Tags
  import opened Log
  import opened Traverse
  import Compaction
  import opened Contents
  import opened Names
  import opened GlobalState
  import opened Fetch
  import opened Commit
  import opened PowerLoss
  import opened Moves
  import opened MetadataPair

  /** A name tag of a file or directory. */
  predicate NewName(name: Rec, id: nat) {
    && Findable(name.tag.kind) && name.tag.kind != FROM_NOOP && name.tag.id == id && name.tag.size < DELETED_SIZE
  }

  // ---- What keeps a log in order ----

  lemma TidySnoc(log: seq<Rec>, r: Rec)
    requires Tidy(log) && InOrder(Replay(log), HadDelete(log), r)
    ensures Tidy(log + [r]) && Replay(log + [r]) == Apply(Replay(log), r)
  {
    assert (log + [r])[..|log|] == log;
  }

  /** A deleted entry. */
  lemma DeleteTidy(log: seq<Rec>, id: nat)
    requires Tidy(log) && EveryNamed(Replay(log)) && id < Replay(log).count
    ensures var after := log + [Rec(Tag(TYPE_DELETE, id, 0), [])];
            Tidy(after) && EveryNamed(Replay(after)) && Replay(after).count == Replay(log).count - 1
  {
    hide NameAt, Apply, Replay, NameCmp;
    var d, r := Replay(log), Rec(Tag(TYPE_DELETE, id, 0), []);
    SearchKeepsPlace(log, []);
    DeleteOnDisk(id);
    CreateIsSplice();
    ShiftedBy(d, r);
    CountMoves(d, r);
    assert forall k: nat :: Before(r, k) == Some(if k < id then k else k + 1);
    TidySnoc(log, r);
  }

  lemma DeleteOnDisk(id: nat)
    ensures OnDisk(Rec(Tag(TYPE_DELETE, id, 0), [])) && OnDisk(Rec(Tag(TYPE_CREATE, id, 0), []))
  {
  }

  /** An entry created where its name belongs. */
  lemma CreateTidy(log: seq<Rec>, id: nat, name: Rec)
    requires Tidy(log) && EveryNamed(Replay(log)) && Replay(log).count + 1 < NO_ID && id <= Replay(log).count
    requires NewName(name, id)
    requires Belongs(Replay(log), id, name.data)
    ensures var after := log + [Rec(Tag(TYPE_CREATE, id, 0), []), name];
            Tidy(after) && EveryNamed(Replay(after)) && Replay(after).count == Replay(log).count + 1
  {
    hide NameAt, Apply, Replay, NameCmp, Findable, OnDisk, Belongs, Tidy, EveryNamed, NewName;
    var c := Rec(Tag(TYPE_CREATE, id, 0), []);
    CreatedHole(log, id);
    BelongsInHole(Replay(log), Replay(log + [c]), id, name.data);
    NamedHole(log + [c], id, name);
    assert log + [c, name] == log + [c] + [name];
    HoleFilled(Replay(log), Replay(log + [c]), Replay(log + [c, name]), id, name);
  }

  /** An entry has been created, and has no name yet. */
  ghost predicate HoleAt(d: Dir, e: Dir, id: nat) {
    && e.count == d.count + 1
    && forall k: nat {:trigger NameAt(e, k)} ::
         NameAt(e, k) == if k < id then NameAt(d, k) else if k == id then None else NameAt(d, k - 1)
  }

  lemma CreatedHole(log: seq<Rec>, id: nat)
    requires Tidy(log) && Replay(log).count + 1 < NO_ID && id <= Replay(log).count
    ensures var c := Rec(Tag(TYPE_CREATE, id, 0), []);
            Tidy(log + [c]) && HoleAt(Replay(log), Replay(log + [c]), id)
  {
    hide NameAt, Apply, Replay, Precedes, OnDisk, Tidy;
    var d, c := Replay(log), Rec(Tag(TYPE_CREATE, id, 0), []);
    SearchKeepsPlace(log, []);
    DeleteOnDisk(id);
    CreateIsSplice();
    ShiftedBy(d, c);
    CountMoves(d, c);
    assert forall k: nat :: Before(c, k) == if k < id then Some(k) else if k == id then None else Some(k - 1);
    TidySnoc(log, c);
  }

  lemma NamedHole(log: seq<Rec>, id: nat, name: Rec)
    requires Tidy(log) && NewName(name, id) && id < Replay(log).count && NameAt(Replay(log), id) == None
    requires Belongs(Replay(log), id, name.data)
    ensures Tidy(log + [name]) && Replay(log + [name]).count == Replay(log).count
    ensures forall k: nat :: NameAt(Replay(log + [name]), k) ==
                             if k == id then Some(ValueOf(name)) else NameAt(Replay(log), k)
  {
    hide NameAt, Apply, Replay, NameCmp, Findable, OnDisk, Tidy, Under, Over;
    var d := Replay(log);
    SearchKeepsPlace(log, []);
    NameKinds(name.tag.kind);
    NameKindOnDisk(name);
    NamedAfter(d, name);
    PlacedInOrder(d, Apply(d, name), id, ValueOf(name));
    TidySnoc(log, name);
  }

  /** A name in its place. */
  lemma PlacedInOrder(d: Dir, e: Dir, id: nat, v: Value)
    requires Orderly(d) && Findable(v.kind) && Belongs(d, id, v.data) && id < d.count == e.count
    requires forall k: nat :: NameAt(e, k) == if k == id then Some(v) else NameAt(d, k)
    ensures Orderly(e)
  {
    hide NameAt, NameCmp, Findable;
    OverIsAfter(v.data);
  }

  lemma HoleFilled(d: Dir, e: Dir, f: Dir, id: nat, name: Rec)
    requires EveryNamed(d) && HoleAt(d, e, id) && f.count == e.count && id <= d.count
    requires forall k: nat :: NameAt(f, k) == if k == id then Some(ValueOf(name)) else NameAt(e, k)
    ensures EveryNamed(f)
  {
    hide NameAt;
    forall k: nat | k < f.count ensures NameAt(f, k).Some? {
      if k != id {
        assert NameAt(e, k) == NameAt(d, if k < id then k else k - 1);
      }
    }
  }

  /** The place stays while the entry has no name yet. */
  lemma BelongsInHole(d: Dir, e: Dir, id: nat, name: seq<Byte>)
    requires HoleAt(d, e, id) && Belongs(d, id, name)
    ensures NameAt(e, id) == None && Belongs(e, id, name)
  {
    hide NameAt, Under, Over;
    forall k: nat | NameAt(e, k).Some?
      ensures if k < id then Under(NameAt(e, k).value, name) else Over(NameAt(e, k).value, name)
    {
      assert k != id && NameAt(e, k) == NameAt(d, if k < id then k else k - 1);
    }
  }

  lemma NameKindOnDisk(name: Rec)
    requires Findable(name.tag.kind) && name.tag.kind != FROM_NOOP
    ensures OnDisk(name)
  {
  }

  lemma OverIsAfter(name: seq<Byte>)
    ensures forall v :: Over(v, name) ==> Findable(v.kind) && NameCmp(name, v.data).Less?
  {
    hide NameCmp;
    forall v | Over(v, name) ensures NameCmp(name, v.data).Less? {
      NamesAreOrdered(name, v.data);
    }
  }

  /** Tags that neither name nor renumber: structs, user attributes, tails, global state, checksums. */
  predicate Nameless(r: Rec) {
    OnDisk(r) && r.tag.Fits() && Type1(r.tag.kind) != TYPE_NAME && Type1(r.tag.kind) != TYPE_SPLICE
  }

  lemma {:induction false} OthersTidy(log: seq<Rec>, recs: seq<Rec>)
    requires Tidy(log) && forall i | 0 <= i < |recs| :: Nameless(recs[i])
    ensures Tidy(log + recs) && Replay(log + recs).count == Replay(log).count
    ensures forall id: nat :: NameAt(Replay(log + recs), id) == NameAt(Replay(log), id)
    decreases |recs|
  {
    hide NameAt, Apply, Replay, NameCmp, OnDisk;
    if recs == [] {
      assert log + recs == log;
    } else {
      var n := |recs| - 1;
      OthersTidy(log, recs[..n]);
      var all, r := log + recs[..n], recs[n];
      SearchKeepsPlace(all, []);
      NamelessStays(Replay(all), r);
      CreateIsSplice();
      TidySnoc(all, r);
      assert log + recs == all + [r];
    }
  }

  lemma NamelessStays(d: Dir, r: Rec)
    requires Nameless(r)
    ensures Apply(d, r).count == d.count && forall id: nat :: NameAt(Apply(d, r), id) == NameAt(d, id)
  {
    hide NameAt, Entry, Pad;
    CreateIsSplice();
    ShiftedBy(d, r);
    assert forall id: nat :: Before(r, id) == Some(id);
  }

  // ---- Compactions ----

  /** What a compaction has emitted for some records: each entry named once, and only where those records name it. */
  ghost predicate NamedOnce(out: seq<Rec>, recs: seq<Rec>) {
    && Compaction.NoSplices(out)
    && (forall i | 0 <= i < |out| && Type1(out[i].tag.kind) == TYPE_NAME ::
          out[i].tag.size != DELETED_SIZE && Compaction.Final(recs, out[i].tag.id, Slot(TYPE_NAME)).Some?)
    && (forall i, j | 0 <= i < j < |out| && Type1(out[i].tag.kind) == Type1(out[j].tag.kind) == TYPE_NAME ::
          out[i].tag.id != out[j].tag.id)
  }

  predicate NamesKept(recs: seq<Rec>) {
    forall i | 0 <= i < |recs| && Type1(recs[i].tag.kind) == TYPE_NAME :: recs[i].tag.size != DELETED_SIZE
  }

  /** More records in front. */
  lemma {:induction false} FinalStays(recs: seq<Rec>, later: seq<Rec>, id: nat, key: Slot)
    requires Compaction.Final(later, id, key).Some?
    ensures Compaction.Final(recs + later, id, key).Some?
    decreases |recs|
  {
    hide Compaction.Final;
    if recs == [] {
      assert recs + later == later;
    } else {
      FinalStays(recs[1..], later, id, key);
      Compaction.FinalCons(recs[0], recs[1..] + later, id, key);
      assert recs + later == [recs[0]] + (recs[1..] + later);
    }
  }

  lemma OnceInFront(out: seq<Rec>, recs: seq<Rec>, later: seq<Rec>)
    requires NamedOnce(out, later)
    ensures NamedOnce(out, recs + later)
  {
    hide Compaction.Final, Compaction.NoSplices;
    forall i | 0 <= i < |out| && Type1(out[i].tag.kind) == TYPE_NAME
      ensures Compaction.Final(recs + later, out[i].tag.id, Slot(TYPE_NAME)).Some?
    {
      FinalStays(recs, later, out[i].tag.id, Slot(TYPE_NAME));
    }
  }

  lemma NamelessInFront(more: seq<Rec>, out: seq<Rec>, recs: seq<Rec>)
    requires NamedOnce(out, recs) && Compaction.NoSplices(more)
    requires forall i | 0 <= i < |more| :: Type1(more[i].tag.kind) != TYPE_NAME
    ensures NamedOnce(more + out, recs)
  {
    hide Compaction.Final, Type1;
  }

  lemma KeepOnce(r: Rec, later: seq<Rec>, n: nat, out: seq<Rec>)
    requires OnDisk(r) && AllOnDisk(later) && NamedOnce(out, later)
    requires Type1(r.tag.kind) == TYPE_NAME ==> r.tag.size != DELETED_SIZE
    ensures NamedOnce(Keep(r, later, CompactWindow(0, n)) + out, [r] + later)
  {
    hide Compaction.Final, Filter, OnDisk;
    var w := CompactWindow(0, n);
    OnceInFront(out, [r], later);
    Compaction.WantedByCompact(r.tag.kind, 0, n);
    if Keep(r, later, w) == [] {
      assert [] + out == out;
    } else {
      var x := Keep(r, later, w)[0];
      FilterKeepsFields(r.tag, later);
      Compaction.KeptFinal(r, later, w, x.tag.id, Slot(TYPE_NAME), x);
      NameKinds(r.tag.kind);
      SplicesApart(r.tag.kind);
      assert Keep(r, later, w) == [x];
    }
  }

  lemma SplicesApart(kind: bv11)
    ensures IsAttr(kind) ==> Type1(kind) != TYPE_SPLICE
  {
  }

  lemma {:induction false} EmitLogOnce(log: seq<Rec>, later: seq<Rec>, n: nat, out: seq<Rec>)
    requires AllOnDisk(log) && AllOnDisk(later) && NamesKept(log) && NamedOnce(out, later)
    ensures NamedOnce(EmitLog(log, later, CompactWindow(0, n)) + out, log + later)
  {
    hide Keep, OnDisk, NamedOnce, Type1;
    var w := CompactWindow(0, n);
    if log == [] {
      assert [] + out == out && log + later == later;
    } else {
      var rest := EmitLog(log[1..], later, w) + out;
      EmitLogOnce(log[1..], later, n, out);
      KeepOnce(log[0], log[1..] + later, n, rest);
      assert [log[0]] + (log[1..] + later) == log + later;
      assert EmitLog(log, later, w) + out == Keep(log[0], log[1..] + later, w) + rest;
    }
  }

  /** A LFS_FROM_* item brings in no names. */
  lemma SpecialIsNameless(item: Item, id: nat)
    requires ItemOk(item) && !item.Plain?
    ensures forall i | 0 <= i < |Expand(item, id)| :: Type1(Expand(item, id)[i].tag.kind) != TYPE_NAME
    ensures Compaction.NoSplices(Expand(item, id))
  {
    hide OnDisk, EmitLog;
    match item
    case Noop =>
    case Move(_, src, from) =>
      var w := MoveWindow(from, id);
      EmitLogInside(src, [], w);
      forall i | 0 <= i < |Expand(item, id)|
        ensures Type1(Expand(item, id)[i].tag.kind) != TYPE_NAME
        ensures Type1(Expand(item, id)[i].tag.kind) != TYPE_SPLICE
      {
        Compaction.MoveWants(w, Expand(item, id)[i].tag.kind);
        NotMoved(Expand(item, id)[i].tag.kind);
      }
    case UserAttrs(_, attrs) =>
      forall i | 0 <= i < |attrs| {
        UserAttrKind(attrs[i].kind);
      }
  }

  lemma NotMoved(kind: bv11)
    ensures kind & 0x600 == TYPE_STRUCT ==> Type1(kind) != TYPE_NAME && Type1(kind) != TYPE_SPLICE
  {
  }

  lemma ItemOnce(item: Item, later: seq<Rec>, n: nat, out: seq<Rec>)
    requires ItemOk(item) && AllOnDisk(later) && NamedOnce(out, later) && NamesKept(Expand(item, ItemTag(item).id))
    ensures NamedOnce(KeepItem(item, later, CompactWindow(0, n)) + out, Expand(item, ItemTag(item).id) + later)
  {
    hide Keep, OnDisk, NamedOnce, Type1, Filter;
    var w, recs := CompactWindow(0, n), Expand(item, ItemTag(item).id);
    if item.Plain? {
      Compaction.PlainItemIsRecord(item.rec, later, w);
      assert recs == [item.rec] && recs[0] == item.rec;
      KeepOnce(item.rec, later, n, out);
    } else {
      OnceInFront(out, recs, later);
      if KeepItem(item, later, w) == [] {
        assert [] + out == out;
      } else {
        SpecialIsNameless(item, Filter(ItemTag(item), later).value.id + w.diff);
        NamelessInFront(KeepItem(item, later, w), out, recs + later);
      }
    }
  }

  lemma {:induction false} EmitItemsOnce(items: seq<Item>, n: nat)
    requires ItemsOk(items) && NamesKept(Flatten(items))
    ensures NamedOnce(EmitItems(items, CompactWindow(0, n)), Flatten(items))
    decreases |items|
  {
    hide KeepItem, ItemOk, Expand, NamedOnce, Type1;
    if items == [] {
      NothingOnce([]);
    } else {
      var first, rest := Expand(items[0], ItemTag(items[0]).id), Flatten(items[1..]);
      FlattenOnDisk(items[1..]);
      KeptParts(first, rest);
      EmitItemsOnce(items[1..], n);
      ItemOnce(items[0], rest, n, EmitItems(items[1..], CompactWindow(0, n)));
    }
  }

  lemma NothingOnce(recs: seq<Rec>)
    ensures NamedOnce([], recs)
  {
  }

  lemma KeptParts(a: seq<Rec>, b: seq<Rec>)
    requires NamesKept(a + b)
    ensures NamesKept(a) && NamesKept(b)
  {
    hide Type1;
    assert forall i | 0 <= i < |a| :: (a + b)[i] == a[i];
    assert forall i | 0 <= i < |b| :: (a + b)[|a| + i] == b[i];
  }

  lemma EmitOnce(log: seq<Rec>, items: seq<Item>, n: nat)
    requires AllOnDisk(log) && ItemsOk(items) && NamesKept(log + Flatten(items))
    ensures NamedOnce(Emit(log, items, CompactWindow(0, n)), log + Flatten(items))
  {
    hide NamedOnce, OnDisk, ItemOk, Flatten, EmitLog, EmitItems;
    FlattenOnDisk(items);
    KeptParts(log, Flatten(items));
    EmitItemsOnce(items, n);
    EmitLogOnce(log, Flatten(items), n, EmitItems(items, CompactWindow(0, n)));
  }

  lemma {:induction false} TidyKeepsNames(log: seq<Rec>)
    requires Tidy(log)
    ensures NamesKept(log)
  {
    hide OnDisk, Orderly, Type1;
    if log != [] {
      TidyKeepsNames(log[..|log| - 1]);
    }
  }

  predicate NamesId(r: Rec, id: nat) { Type1(r.tag.kind) == TYPE_NAME && r.tag.id == id }

  /** A log of plain tags that names each entry once: what its beginnings name. */
  lemma {:induction false} PlainNames(out: seq<Rec>, recs: seq<Rec>, k: nat, id: nat)
    requires NamedOnce(out, recs) && AllOnDisk(out) && k <= |out|
    ensures NameAt(Replay(out[..k]), id).Some? <==> exists i :: 0 <= i < k && NamesId(out[i], id)
    ensures forall i | 0 <= i < k && NamesId(out[i], id) :: NameAt(Replay(out[..k]), id) == Some(ValueOf(out[i]))
  {
    hide NameAt, OnDisk, Replay, NamedOnce, NamesId;
    if k > 0 {
      PlainNames(out, recs, k - 1, id);
      PlainStep(out, recs, k - 1, id);
    } else {
      NothingNamed(id);
      assert out[..0] == [];
    }
  }

  /** One more of its tags. */
  lemma PlainStep(out: seq<Rec>, recs: seq<Rec>, k: nat, id: nat)
    requires NamedOnce(out, recs) && AllOnDisk(out) && k < |out|
    ensures NameAt(Replay(out[..k + 1]), id) ==
            if NamesId(out[k], id) then Some(ValueOf(out[k])) else NameAt(Replay(out[..k]), id)
    ensures NamesId(out[k], id) ==> forall i | 0 <= i < k :: !NamesId(out[i], id)
  {
    hide NameAt, OnDisk, Apply, Compaction.Final, Type1, Replay;
    var r := out[k];
    assert out[..k + 1] == out[..k] + [r] && OnDisk(r);
    ReplaySnoc(out[..k], r);
    NameAfter(Replay(out[..k]), r, id);
    NoSpliceStays(r, id);
  }

  lemma NoSpliceStays(r: Rec, id: nat)
    ensures Type1(r.tag.kind) != TYPE_SPLICE ==> Before(r, id) == Some(id)
  {
  }

  lemma NothingNamed(id: nat)
    ensures NameAt(Replay([]), id) == None
  {
  }

  /** The beginnings of such a log name what the whole log does. */
  lemma SortedBeginning(out: seq<Rec>, recs: seq<Rec>, k: nat)
    requires NamedOnce(out, recs) && AllOnDisk(out) && k <= |out| && Sorted(Replay(out))
    ensures Sorted(Replay(out[..k]))
  {
    hide NameAt, OnDisk, NamedOnce, Type1, Precedes, Replay;
    var d, e := Replay(out[..k]), Replay(out);
    assert out[..|out|] == out;
    forall id: nat | NameAt(d, id).Some? ensures NameAt(d, id) == NameAt(e, id) {
      PlainNames(out, recs, k, id);
      PlainNames(out, recs, |out|, id);
      var i :| 0 <= i < k && NamesId(out[i], id);
    }
  }

  /** One more tag of a compaction. */
  lemma PlainInOrder(out: seq<Rec>, recs: seq<Rec>, k: nat, n: nat)
    requires NamedOnce(out, recs) && AllOnDisk(out) && k < |out| && Sorted(Replay(out)) && Tidy(out[..k]) && n < NO_ID
    requires Replay(out[..k]).count <= n && out[k].tag.id < n && out[k].tag.Fits()
    ensures Tidy(out[..k + 1]) && Replay(out[..k + 1]).count <= n
  {
    hide NameAt, OnDisk, Type1, Precedes, Replay, Apply, Compaction.Final, Tidy, Sorted;
    var d, r := Replay(out[..k]), out[k];
    assert out[..k + 1] == out[..k] + [r];
    SearchKeepsPlace(out[..k], []);
    SortedBeginning(out, recs, k + 1);
    ReplaySnoc(out[..k], r);
    CreateIsSplice();
    NoDeletes(out, k);
    PlainNames(out, recs, k, r.tag.id);
    if Type1(r.tag.kind) == TYPE_NAME {
      NamedAfter(d, r);
    } else {
      NamelessStays(d, r);
    }
    TidySnoc(out[..k], r);
  }

  lemma NoDeletes(out: seq<Rec>, k: nat)
    requires Compaction.NoSplices(out) && k <= |out|
    ensures !HadDelete(out[..k])
    ensures forall i | 0 <= i < |out| :: out[i].tag.kind != TYPE_CREATE && out[i].tag.kind != TYPE_DELETE
  {
    CreateIsSplice();
  }

  lemma {:induction false} PlainTidy(out: seq<Rec>, recs: seq<Rec>, k: nat, n: nat)
    requires NamedOnce(out, recs) && AllOnDisk(out) && k <= |out| && Sorted(Replay(out)) && n < NO_ID
    requires forall i | 0 <= i < |out| :: out[i].tag.id < n && out[i].tag.Fits()
    ensures Tidy(out[..k]) && Replay(out[..k]).count <= n
  {
    hide NameAt, OnDisk, NamedOnce, Apply, Sorted, Orderly;
    if k > 0 {
      PlainTidy(out, recs, k - 1, n);
      PlainInOrder(out, recs, k - 1, n);
    }
  }

  /** What a compaction writes is in order again. */
  lemma CompactTidy(log: seq<Rec>, items: seq<Item>, n: nat)
    requires AllOnDisk(log) && AllShaped(log) && ItemsOk(items) && ItemsSound(items) && Compaction.Harmless(items)
    requires Tidy(log + Flatten(items)) && Replay(log + Flatten(items)).count == n
    ensures Tidy(Emit(log, items, CompactWindow(0, n)))
    ensures forall id: nat :: NameAt(Replay(Emit(log, items, CompactWindow(0, n))), id) ==
                              NameAt(Replay(log + Flatten(items)), id)
  {
    hide NameAt, OnDisk, NamedOnce, Emit, Flatten, ItemOk, ItemSound, Shaped, Compaction.Harmless, Tidy, Replay,
         Carried, Attrs, Entry;
    var all, out := log + Flatten(items), Emit(log, items, CompactWindow(0, n));
    SearchKeepsPlace(all, []);
    TidyKeepsNames(all);
    EmitOnce(log, items, n);
    Compaction.CompactionPreserves(log, items, 0, n);
    EmitCarried(log, items, n);
    Compaction.EmitInside(log, items, 0, n);
    forall id: nat
      ensures Attrs(Entry(Replay(out), id)) == if id < n then Attrs(Entry(Replay(all), id)) else map[]
    {
      assert id < n ==> Attrs(Entry(Replay(out), id)) == Attrs(Entry(Replay(all), 0 + id));
    }
    SameNames(Replay(out), Replay(all), n);
    OutFits(out, n);
    PlainTidy(out, all, |out|, n);
    assert out[..|out|] == out;
  }

  lemma SameNames(e: Dir, d: Dir, n: nat)
    requires Orderly(d) && d.count == n
    requires forall id: nat :: Attrs(Entry(e, id)) == if id < n then Attrs(Entry(d, id)) else map[]
    ensures Sorted(e) && forall id: nat :: NameAt(e, id) == NameAt(d, id)
  {
    hide Attrs, Entry, Precedes;
    assert forall id: nat :: Attrs(Entry(e, id)) == if id < n then Attrs(Entry(d, id)) else map[];
    forall id: nat ensures NameAt(e, id) == NameAt(d, id) {
      if id >= n {
        assert NameAt(d, id) == None;
      }
    }
  }

  lemma OutFits(out: seq<Rec>, n: nat)
    requires AllCarried(out) && Inside(out, CompactWindow(0, n))
    ensures AllOnDisk(out) && forall i | 0 <= i < |out| :: out[i].tag.id < n && out[i].tag.Fits()
  {
    hide OnDisk;
  }

  // ---- Commits ----

  /** A log that has grown by tags without names. */
  ghost predicate GrownNameless(after: seq<Rec>, before: seq<Rec>) {
    before <= after && forall i | |before| <= i < |after| :: Nameless(after[i])
  }

  lemma GrownTidy(after: seq<Rec>, before: seq<Rec>)
    requires Tidy(before) && GrownNameless(after, before)
    ensures Tidy(after) && forall id: nat :: NameAt(Replay(after), id) == NameAt(Replay(before), id)
  {
    hide Nameless, NameAt, Replay;
    var more := after[|before|..];
    assert after == before + more;
    assert forall i | 0 <= i < |more| :: more[i] == after[|before| + i];
    OthersTidy(before, more);
  }

  /** Behind its attributes a commit writes the tail, the global state and CRC tags. */
  lemma EndIsNameless(g: seq<Rec>, front: seq<Rec>, end: seq<Rec>)
    requires AllShaped(g) && front + end <= g && OnlyCrcs(g[|front + end|..])
    requires forall i | 0 <= i < |end| :: Silent(end[i].tag.kind) && Sound(end[i])
    ensures GrownNameless(g, front)
  {
    hide Silent, Sound, OnDisk, Type1;
    forall i | |front| <= i < |g| ensures Nameless(g[i]) {
      if i < |front + end| {
        assert g[i] == (front + end)[i] == end[i - |front|];
        SilentIsNameless(g[i]);
      } else {
        assert g[i] == g[|front + end|..][i - |front + end|];
        CrcIsNameless(g[i]);
      }
    }
  }

  lemma SilentIsNameless(r: Rec)
    requires Silent(r.tag.kind) && Sound(r) && Shaped(r)
    ensures Nameless(r)
  {
  }

  lemma CrcIsNameless(r: Rec)
    requires Type1(r.tag.kind) == TYPE_CRC && Shaped(r)
    ensures Nameless(r)
  {
    CrcKind(r.tag.kind);
  }

  lemma ClosedLog(f: Found, st: State, end: nat, etag: Word)
    requires ClosedState(f, st, end, etag)
    ensures st.log <= f.log && OnlyCrcs(f.log[|st.log|..])
  {
    hide WellSized;
  }

  /** An append leaves the log with the attribute list, and tags without names. */
  lemma AppendedTidy(d: Mdir, before: seq<Byte>, log: seq<Rec>, items: seq<Item>, delta: GState)
    requires d.Valid() && ItemsOk(items) && ItemsSound(items) && AllSound(log) && |before| >= 4
    requires FetchBlock(before, d.prog).found.log == log && FetchBlock(before, d.prog).found.off > 0
    requires d.Appended(before, AppendRecs(log, items, delta))
    ensures GrownNameless(d.log, log + Flatten(items))
  {
    hide FetchBlock, Sound, Advance, Committed, Committable, Stored, Flatten, CommitEnd, ItemOk, ItemSound, XorG,
         Shaped, ClosedState, StateRec;
    var recs, f := AppendRecs(log, items, delta), FetchBlock(before, d.prog).found;
    SoundIsSized(log);
    AppendThenFetch(before, d.prog, recs);
    var e := Advance(Resume(f), recs);
    AdvanceShape(Resume(f), recs);
    ClosedLog(FetchBlock(d.active[..], d.prog).found, e, d.off, d.etag);
    var x := XorG(delta, Stored(log));
    StateRecSound(x);
    var state := if delta == ZERO then [] else [StateRec(x)];
    assert log + recs == log + Flatten(items) + state;
    EndIsNameless(d.log, log + Flatten(items), state);
  }

  /** A compaction leaves what it has emitted, and tags without names. */
  lemma RewrittenTidy(d: Mdir, log: seq<Rec>, items: seq<Item>, n: nat, t: Tail, delta: GState, blank: seq<Byte>)
    requires d.Valid() && AllOnDisk(log) && AllShaped(log) && ItemsOk(items) && ItemsSound(items) && n <= 1024
    requires d.Rewritten(CompactRecs(log, items, n, t, delta), blank)
    ensures GrownNameless(d.log, Emit(log, items, CompactWindow(0, n)))
  {
    hide FetchBlock, Sound, Advance, Compacted, Committable, Stored, Emit, CommitEnd, ItemOk, ItemSound, Shaped, ToLe,
         ClosedState, CompactEnd, OnDisk, Put, Silent;
    var recs := CompactRecs(log, items, n, t, delta);
    CompactedFetch(blank, d.rev, recs, d.prog);
    var st := Start(Put(blank, 0, ToLe(d.rev)));
    var e := Advance(st, recs);
    AdvanceShape(st, recs);
    ClosedLog(FetchBlock(d.active[..], d.prog).found, e, CommitEnd(e.off, d.prog),
      Compacted(blank, d.rev, recs, d.prog).ptag);
    CompactEndSilent(log, t, delta);
    assert [] + recs == recs;
    EndIsNameless(d.log, Emit(log, items, CompactWindow(0, n)), CompactEnd(log, t, delta));
  }

  /**
   * A commit keeps a pair in order if its attribute list does, whichever branch it takes: the log on disk is tidy
   * again, and names what the list leaves.
   */
  lemma CommitTidy(d: Mdir, before: seq<Byte>, log: seq<Rec>, count: nat, items: seq<Item>, t: Tail, delta: GState,
                   blank: seq<Byte>)
    requires d.Valid() && CommitOk(log, count, items) && AllSound(log) && AllShaped(log) && |before| >= 4
    requires FetchBlock(before, d.prog).found.log == log && FetchBlock(before, d.prog).found.off > 0
    requires AllOnDisk(log) && ItemsCount(count, items) >= 0
    requires || d.Appended(before, AppendRecs(log, items, delta))
             || d.Rewritten(CompactRecs(log, items, ItemsCount(count, items), t, delta), blank)
    requires Tidy(log + Flatten(items))
    ensures Tidy(d.log)
    ensures forall id: nat :: NameAt(Replay(d.log), id) == NameAt(Replay(log + Flatten(items)), id)
  {
    hide CommitOk, FetchBlock, NameAt, Replay, Flatten, AppendRecs, CompactRecs, Mdir.Shape, Sound, Shaped, OnDisk,
         Tidy, GrownNameless, Emit, Compaction.Harmless, Stored, ItemsCount, Mdir.Appended, Mdir.Rewritten;
    CommitNeeds(log, count, items);
    if d.Appended(before, AppendRecs(log, items, delta)) {
      AppendedTidy(d, before, log, items, delta);
      GrownTidy(d.log, log + Flatten(items));
    } else {
      var n: nat := ItemsCount(count, items);
      RewrittenTidy(d, log, items, n, t, delta, blank);
      CompactTidy(log, items, n);
      GrownTidy(d.log, Emit(log, items, CompactWindow(0, n)));
    }
  }

  // ---- Renames ----

  /** Where an entry has been deleted its name belongs. */
  lemma DeletedPlace(log: seq<Rec>, id: nat, name: seq<Byte>)
    requires Tidy(log) && Has(Replay(log), id, name)
    ensures Belongs(Replay(log + [Rec(Tag(TYPE_DELETE, id, 0), [])]), id, name)
  {
    hide NameAt, Replay, Tidy, NameCmp, Under, Over, Precedes;
    var d, e := Replay(log), Replay(log + [Rec(Tag(TYPE_DELETE, id, 0), [])]);
    SearchKeepsPlace(log, []);
    ShownNames(log, id);
    HasFindable(d, id, name);
    forall k: nat | NameAt(e, k).Some?
      ensures if k < id then Under(NameAt(e, k).value, name) else Over(NameAt(e, k).value, name)
    {
      if k < id {
        assert Precedes(NameAt(d, k).value, NameAt(d, id).value);
        Between(NameAt(d, k).value, NameAt(d, id).value, name);
      } else {
        assert Precedes(NameAt(d, id).value, NameAt(d, k + 1).value);
        Between(NameAt(d, id).value, NameAt(d, k + 1).value, name);
      }
    }
  }

  lemma HasFindable(d: Dir, id: nat, name: seq<Byte>)
    requires Has(d, id, name)
    ensures NameAt(d, id).Some? && Findable(NameAt(d, id).value.kind) && NameAt(d, id).value.data == name
  {
  }

  lemma NoneOrDeleted(log: seq<Rec>, id: Option<nat>)
    requires Tidy(log) && EveryNamed(Replay(log)) && (id.Some? ==> id.value < Replay(log).count)
    ensures var all := log + Deletes(id);
            && Tidy(all) && EveryNamed(Replay(all))
            && Replay(all).count == Replay(log).count - (if id.Some? then 1 else 0)
  {
    hide NameAt, Replay, Tidy, EveryNamed;
    if id.Some? {
      DeleteTidy(log, id.value);
    } else {
      assert log + Deletes(id) == log;
    }
  }

  lemma MovedNameless(src: seq<Rec>, oldid: nat, newid: nat)
    requires AllSound(src) && AllShaped(src) && oldid < DELETED_SIZE && newid < 1024 && AllOnDisk(src)
    ensures forall i | 0 <= i < |MovedRecs(src, oldid, newid)| :: Nameless(MovedRecs(src, oldid, newid)[i])
  {
    hide OnDisk, Sound, Shaped, EmitLog, Carried, Type1;
    var item := Move(newid, src, oldid);
    ExpandCarried(item, newid);
    SpecialIsNameless(item, newid);
    var recs := MovedRecs(src, oldid, newid);
    assert recs == Expand(item, newid);
    forall i | 0 <= i < |recs| ensures Nameless(recs[i]) {
      CarriedFits(recs[i]);
    }
  }

  lemma CarriedFits(r: Rec)
    requires Carried(r)
    ensures OnDisk(r) && r.tag.Fits()
  {
  }

  /**
   * The list that a rename commits keeps the target in order, where the search says that the new name goes or that the
   * replaced entry is; also within one directory, with the old entry deleted after it.
   */
  lemma RenameTidy(log: seq<Rec>, newid: nat, over: bool, name: Rec, src: seq<Rec>, oldid: nat, also: Option<nat>)
    requires Tidy(log) && EveryNamed(Replay(log)) && Replay(log).count + 1 < NO_ID && NewName(name, newid)
    requires if over then Has(Replay(log), newid, name.data)
             else newid <= Replay(log).count && Belongs(Replay(log), newid, name.data)
    requires AllSound(src) && AllShaped(src) && oldid < DELETED_SIZE
    requires also.Some? ==> also.value < Replay(log).count + (if over then 0 else 1)
    ensures ItemsOk(RenameItems(newid, over, name, src, oldid, also))
    ensures var all := log + Flatten(RenameItems(newid, over, name, src, oldid, also));
            Tidy(all) && EveryNamed(Replay(all))
  {
    hide NameAt, Replay, Tidy, EveryNamed, Belongs, Has, NewName, MovedRecs, Deletes, Flatten, Nameless, OnDisk, Sound,
         Shaped;
    RenameItemsOk(newid, over, name, src, oldid, also);
    RenameFlat(newid, over, name, src, oldid, also);
    var dels, moved := Deletes(Replaced(newid, over)), MovedRecs(src, oldid, newid);
    var c := Rec(Tag(TYPE_CREATE, newid, 0), []);
    var base, named := log + dels, log + dels + [c, name];
    RoomFor(log, newid, over, name);
    CreateTidy(base, newid, name);
    MovedNameless(src, oldid, newid);
    OthersTidy(named, moved);
    SameAllNamed(Replay(named), Replay(named + moved));
    NoneOrDeleted(named + moved, also);
    assert log + (dels + [c] + [name] + moved + Deletes(also)) == named + moved + Deletes(also);
  }

  lemma SameAllNamed(d: Dir, e: Dir)
    requires EveryNamed(d) && e.count == d.count && forall id: nat :: NameAt(e, id) == NameAt(d, id)
    ensures EveryNamed(e)
  {
    hide NameAt;
  }

  /** There is a place for the new name, once a replaced entry is gone. */
  lemma RoomFor(log: seq<Rec>, newid: nat, over: bool, name: Rec)
    requires Tidy(log) && EveryNamed(Replay(log)) && NewName(name, newid)
    requires if over then Has(Replay(log), newid, name.data)
             else newid <= Replay(log).count && Belongs(Replay(log), newid, name.data)
    ensures var base := log + Deletes(Replaced(newid, over));
            && Tidy(base) && EveryNamed(Replay(base)) && Belongs(Replay(base), newid, name.data)
            && newid <= Replay(base).count == Replay(log).count - (if over then 1 else 0) && newid < 1024
  {
    hide NameAt, Replay, Tidy, EveryNamed, Belongs, NewName;
    SearchKeepsPlace(log, []);
    if over {
      HasFindable(Replay(log), newid, name.data);
      DeletedPlace(log, newid, name.data);
    } else {
      assert log + Deletes(Replaced(newid, over)) == log;
    }
    NoneOrDeleted(log, Replaced(newid, over));
  }

  lemma RenameItemsOk(newid: nat, over: bool, name: Rec, src: seq<Rec>, oldid: nat, also: Option<nat>)
    requires NewName(name, newid) && AllSound(src) && AllShaped(src) && oldid < DELETED_SIZE
    ensures ItemsOk(RenameItems(newid, over, name, src, oldid, also)) && AllOnDisk(src) && OnDisk(name)
  {
    hide Shaped;
    assert forall i | 0 <= i < |src| :: Sound(src[i]);
  }
}
