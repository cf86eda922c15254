/** Compaction preserves meaning: the emitted log replays to the entries of the log it was made from. */
module Compaction {
  import opened Words
  import opened Tags
  import opened Log
  import opened Traverse

  // ---- Following an id forward through a log ----

  /** The id an entry has after one record, or None if the record deletes it. */
  function After(r: Rec, id: nat): Option<nat> {
    if r.tag.kind == TYPE_CREATE && r.tag.id <= id then Some(id + 1)
    else if r.tag.kind == TYPE_DELETE && r.tag.id <= id then
      if r.tag.id == id then None else Some(id - 1)
    else Some(id)
  }

  function Track(id: nat, log: seq<Rec>): Option<nat>
    decreases |log|
  {
    if log == [] then Some(id)
    else
      match After(log[0], id)
      case None => None
      case Some(i) => Track(i, log[1..])
  }

  /** The last write that a log leaves under an id and a key, found from the front of the log. */
  function Final(log: seq<Rec>, id: nat, key: Slot): Option<Value> {
    if log == [] then None
    else
      var r := log[0];
      match Final(log[1..], id, key)
      case Some(v) => Some(v)
      case None =>
        if IsAttr(r.tag.kind) && Key(r.tag.kind) == key && Track(r.tag.id, log[1..]) == Some(id)
        then Some(ValueOf(r)) else None
  }

  lemma FinalNil(id: nat, key: Slot)
    ensures Final([], id, key) == None
  {
  }

  lemma BeforeAfter(r: Rec, i: nat, j: nat)
    ensures After(r, i) == Some(j) <==> Before(r, j) == Some(i)
  {
  }

  lemma {:induction false} TrackSnoc(id: nat, log: seq<Rec>, r: Rec)
    ensures Track(id, log + [r]) == match Track(id, log) { case None => None case Some(j) => After(r, j) }
    decreases |log|
  {
    if log == [] {
      assert [r][1..] == [];
    } else {
      assert (log + [r])[0] == log[0] && (log + [r])[1..] == log[1..] + [r];
      match After(log[0], id)
      case None =>
      case Some(i) => TrackSnoc(i, log[1..], r);
    }
  }

  lemma {:induction false} FinalSnoc(log: seq<Rec>, r: Rec, id: nat, key: Slot)
    ensures Final(log + [r], id, key) ==
            match Before(r, id) {
              case None => None
              case Some(b) =>
                if IsAttr(r.tag.kind) && r.tag.id == id && Key(r.tag.kind) == key then Some(ValueOf(r))
                else Final(log, b, key)
            }
  {
    if log == [] {
      assert ([] + [r])[1..] == [] && ([] + [r])[0] == r;
    } else {
      assert (log + [r])[0] == log[0] && (log + [r])[1..] == log[1..] + [r];
      FinalSnoc(log[1..], r, id, key);
      TrackSnoc(log[0].tag.id, log[1..], r);
      match Track(log[0].tag.id, log[1..])
      case None =>
      case Some(j) =>
        match Before(r, id)
        case None => assert After(r, j) != Some(id) by { BeforeAfter(r, j, id); }
        case Some(b) => BeforeAfter(r, j, id);
    }
  }

  /** Searching from the front finds what replaying leaves. */
  lemma {:induction false} FinalIsReplay(log: seq<Rec>, id: nat, key: Slot)
    ensures LastWrite(Entry(Replay(log), id), key) == Final(log, id, key)
    decreases |log|
  {
    if log != [] {
      var front, r := log[..|log| - 1], log[|log| - 1];
      assert log == front + [r];
      FinalSnoc(front, r, id, key);
      ApplyEntry(Replay(front), r, id);
      match Before(r, id)
      case None =>
      case Some(b) =>
        FinalIsReplay(front, b, key);
        var e := Entry(Replay(front), b);
        assert (e + [ValueOf(r)])[..|e|] == e;
    }
  }

  // ---- The filter, restated ----

  predicate NoSplices(recs: seq<Rec>) { forall i | 0 <= i < |recs| :: Type1(recs[i].tag.kind) != TYPE_SPLICE }

  lemma {:induction false} TrackPlain(id: nat, recs: seq<Rec>)
    requires NoSplices(recs)
    ensures Track(id, recs) == Some(id)
    decreases |recs|
  {
    if recs != [] {
      TrackPlain(id, recs[1..]);
    }
  }

  lemma MaskedAlike(mask: bv11, a: bv11, b: bv11)
    ensures mask & a == mask & b <==> Alike(mask, a, b)
  {
  }

  lemma SlotMaskMatches(kind: bv11)
    ensures MaskMatchesKey(SlotMask(kind), kind)
  {
  }

  /** The filter's masks compare slots. */
  lemma FilterMask(a: bv11, b: bv11)
    ensures SlotMask(a) & a == SlotMask(a) & b <==> Key(a) == Key(b)
  {
    hide Key, Alike, SlotMask, MaskMatchesKey;
    SlotMaskMatches(a);
    MaskedAlike(SlotMask(a), a, b);
    SameSlot(b, SlotMask(a), a);
  }

  lemma SameSlotSameType(a: bv11, b: bv11)
    requires Key(a) == Key(b)
    ensures Type1(a) == Type1(b)
  {
  }

  lemma UnsplicedTypes(b: bv11)
    requires b & 0x400 == 0
    ensures Type1(b) == TYPE_NAME || Type1(b) == TYPE_FROM || Type1(b) == TYPE_STRUCT || Type1(b) == TYPE_USERATTR
    ensures Type1(b) != TYPE_SPLICE
  {
  }

  lemma {:induction false} TrackInjective(i: nat, j: nat, log: seq<Rec>)
    requires Track(i, log).Some? && Track(i, log) == Track(j, log)
    ensures i == j
    decreases |log|
  {
    if log != [] {
      TrackInjective(After(log[0], i).value, After(log[0], j).value, log[1..]);
    }
  }

  lemma FilterStepIsAfter(t: Tag, r: Rec)
    requires OnDisk(r) && FilterStep(t, r).Some?
    ensures After(r, t.id) == Some(FilterStep(t, r).value.id)
    ensures FilterStep(t, r).value == t.(id := FilterStep(t, r).value.id)
  {
  }

  /**
   * A tag survives the filter exactly when its entry still exists, nothing later overwrote it there, and it is
   * not a removal with something after it.
   */
  lemma {:induction false} FilterMeaning(t: Tag, later: seq<Rec>)
    requires AllOnDisk(later) && t.kind & 0x400 == 0
    ensures match Filter(t, later)
            case Some(u) =>
              Track(t.id, later) == Some(u.id) && Final(later, u.id, Key(t.kind)) == None
                && (t.IsDelete() ==> later == [])
            case None =>
              || (t.IsDelete() && later != [])
              || Track(t.id, later) == None
              || Final(later, Track(t.id, later).value, Key(t.kind)).Some?
    decreases |later|
  {
    hide Key;
    if later != [] {
      var r := later[0];
      FilterMask(r.tag.kind, t.kind);
      UnsplicedTypes(t.kind);
      match FilterStep(t, r)
      case None =>
        if Key(r.tag.kind) == Key(t.kind) {
          SameSlotSameType(r.tag.kind, t.kind);
        }
      case Some(u) =>
        FilterMeaning(u, later[1..]);
        FilterStepIsAfter(t, r);
        if Filter(t, later).Some? && IsAttr(r.tag.kind) && Track(r.tag.id, later[1..]) == Track(u.id, later[1..]) {
          TrackInjective(r.tag.id, u.id, later[1..]);
        }
    }
  }

  // ---- One emitted record at a time ----

  /** An emitted log may forget a removal, never anything else. */
  predicate Agree(got: Option<Value>, want: Option<Value>) {
    got == want || (got == None && want.Some? && want.value.Deleted())
  }

  /** A window over attribute types that looks at abstract types only. */
  predicate Coarse(w: Window) { WantsOnlyAttrs(w) && w.kmask & 0x700 == w.kmask }

  lemma WantsKey(w: Window, kind: bv11)
    requires Coarse(w)
    ensures w.Wants(kind) <==> w.Wants(Key(kind).kind)
  {
    WantsKeyBits(w.kmask, kind);
  }

  lemma WantsKeyBits(kmask: bv11, kind: bv11)
    requires kmask & 0x700 == kmask
    ensures kmask & kind == kmask & Key(kind).kind
  {
  }

  lemma FinalCons(r: Rec, recs: seq<Rec>, id: nat, key: Slot)
    ensures Final([r] + recs, id, key) ==
            match Final(recs, id, key) {
              case Some(v) => Some(v)
              case None =>
                if IsAttr(r.tag.kind) && Key(r.tag.kind) == key && Track(r.tag.id, recs) == Some(id)
                then Some(ValueOf(r)) else None
            }
  {
    assert ([r] + recs)[1..] == recs;
  }

  /** A record the window drops was overwritten, deleted, outside the ids, or a removal. */
  lemma DroppedFinal(r: Rec, later: seq<Rec>, w: Window, id: nat, key: Slot)
    requires OnDisk(r) && AllOnDisk(later) && w.Valid() && Coarse(w)
    requires w.begin <= id < w.end && w.Wants(key.kind) && Keep(r, later, w) == []
    ensures Final([r] + later, id, key) == Final(later, id, key) ||
            (Final(later, id, key) == None && Final([r] + later, id, key) == Some(ValueOf(r)) && r.tag.IsDelete())
  {
    FinalCons(r, later, id, key);
    WantsKey(w, r.tag.kind);
    if w.Wants(r.tag.kind) {
      AttrBits(w.kmask, w.kval, r.tag.kind);
      FilterMeaning(r.tag, later);
    }
  }

  /** A record the window keeps is the last write of its slot. */
  lemma KeptFinal(r: Rec, later: seq<Rec>, w: Window, id: nat, key: Slot, x: Rec)
    requires OnDisk(r) && AllOnDisk(later) && w.Valid() && Coarse(w)
    requires w.begin <= id < w.end && Keep(r, later, w) != [] && x == Keep(r, later, w)[0]
    ensures Keep(r, later, w) == [x] && ValueOf(x) == ValueOf(r) && IsAttr(r.tag.kind)
    ensures x.tag.kind == r.tag.kind
    ensures Final([r] + later, id, key) ==
            if Key(r.tag.kind) == key && x.tag.id == id + w.diff then Some(ValueOf(r)) else Final(later, id, key)
    ensures Key(r.tag.kind) == key && x.tag.id == id + w.diff ==> Final(later, id, key) == None
  {
    FinalCons(r, later, id, key);
    AttrBits(w.kmask, w.kval, r.tag.kind);
    FilterMeaning(r.tag, later);
    FilterKeepsFields(r.tag, later);
  }

  /** Is a record the one that writes a slot of an id, if nothing after it does? */
  predicate Writes(r: Rec, later: seq<Rec>, id: nat, key: Slot) {
    IsAttr(r.tag.kind) && Key(r.tag.kind) == key && Track(r.tag.id, later) == Some(id)
  }

  /** With nothing after it, a wanted record inside the ids is kept. */
  lemma KeepLast(r: Rec, w: Window)
    requires OnDisk(r) && w.Valid() && w.Wants(r.tag.kind) && w.begin <= r.tag.id < w.end
    ensures Keep(r, [], w) != []
  {
  }

  /**
   * One record in front of a log, and in front of what is emitted for that log: an earlier write never shows through a
   * later one, and a removal is only kept if nothing at all comes after it.
   */
  lemma KeepExact(r: Rec, later: seq<Rec>, w: Window, id: nat, key: Slot, tail: seq<Rec>)
    requires OnDisk(r) && AllOnDisk(later) && w.Valid() && Coarse(w)
    requires w.begin <= id < w.end && w.Wants(key.kind) && NoSplices(tail)
    requires Final(later, id, key) == None ==> Final(tail, id + w.diff, key) == None
    ensures Final(Keep(r, later, w) + tail, id + w.diff, key) ==
            if Final(later, id, key) == None && Writes(r, later, id, key) && (r.tag.IsDelete() ==> later == [])
            then Some(ValueOf(r)) else Final(tail, id + w.diff, key)
  {
    hide Final, Filter, OnDisk, NoSplices;
    FinalCons(r, later, id, key);
    if Keep(r, later, w) == [] {
      assert [] + tail == tail;
      DroppedFinal(r, later, w, id, key);
      WantsKey(w, r.tag.kind);
      if later == [] && Writes(r, later, id, key) {
        KeepLast(r, w);
      }
    } else {
      var x := Keep(r, later, w)[0];
      KeptFinal(r, later, w, id, key, x);
      KeptRemoval(r, later, w);
      FinalCons(x, tail, id + w.diff, key);
      TrackPlain(x.tag.id, tail);
    }
  }

  lemma KeptRemoval(r: Rec, later: seq<Rec>, w: Window)
    requires OnDisk(r) && AllOnDisk(later) && w.Valid() && Coarse(w) && Keep(r, later, w) != []
    ensures r.tag.IsDelete() ==> later == []
  {
    AttrBits(w.kmask, w.kval, r.tag.kind);
    FilterMeaning(r.tag, later);
  }

  /** A log in front of a tail: what the tail decides stays decided, and otherwise only removals are forgotten. */
  lemma {:induction false} EmitLogExact(log: seq<Rec>, later: seq<Rec>, w: Window, id: nat, key: Slot, tail: seq<Rec>)
    requires AllOnDisk(log) && AllOnDisk(later) && w.Valid() && Coarse(w)
    requires w.begin <= id < w.end && w.Wants(key.kind) && NoSplices(tail)
    requires Final(later, id, key) == None ==> Final(tail, id + w.diff, key) == None
    ensures Final(later, id, key).Some? ==>
              && Final(log + later, id, key) == Final(later, id, key)
              && Final(EmitLog(log, later, w) + tail, id + w.diff, key) == Final(tail, id + w.diff, key)
    ensures Final(later, id, key) == None ==>
              Agree(Final(EmitLog(log, later, w) + tail, id + w.diff, key), Final(log + later, id, key))
  {
    hide Keep, Final, Filter, OnDisk, Writes, Coarse;
    if log == [] {
      assert [] + tail == tail && [] + later == later;
    } else {
      EmitLogExact(log[1..], later, w, id, key, tail);
      CoarseWants(w);
      EmitLogInside(log[1..], later, w);
      var rest := EmitLog(log[1..], later, w) + tail;
      FinalCons(log[0], log[1..] + later, id, key);
      WritesIs(log[0], log[1..] + later, id, key);
      KeepExact(log[0], log[1..] + later, w, id, key, rest);
      assert log + later == [log[0]] + (log[1..] + later);
      assert EmitLog(log, later, w) + tail == Keep(log[0], log[1..] + later, w) + rest;
    }
  }

  lemma CoarseWants(w: Window)
    requires Coarse(w)
    ensures WantsOnlyAttrs(w)
  {
  }

  lemma WritesIs(r: Rec, later: seq<Rec>, id: nat, key: Slot)
    ensures Writes(r, later, id, key) <==>
            IsAttr(r.tag.kind) && Key(r.tag.kind) == key && Track(r.tag.id, later) == Some(id)
  {
  }

  // ---- Items that stand for several tags ----

  predicate Block(recs: seq<Rec>, id: nat) {
    forall i | 0 <= i < |recs| :: IsAttr(recs[i].tag.kind) && recs[i].tag.id == id
  }

  /** A block of attributes followed by anything. */
  lemma {:induction false} BlockFinal(recs: seq<Rec>, rest: seq<Rec>, at: nat, id: nat, key: Slot)
    requires Block(recs, at)
    ensures Final(recs + rest, id, key) ==
            match Final(rest, id, key) {
              case Some(v) => Some(v)
              case None => if Track(at, rest) == Some(id) then Final(recs, at, key) else None
            }
  {
    if recs == [] {
      assert [] + rest == rest;
    } else {
      var r, tl := recs[0], recs[1..];
      BlockFinal(tl, rest, at, id, key);
      assert recs + rest == [r] + (tl + rest);
      FinalCons(r, tl + rest, id, key);
      TrackConcat(at, tl, rest);
      TrackPlain(at, tl);
    }
  }

  lemma {:induction false} TrackConcat(id: nat, a: seq<Rec>, b: seq<Rec>)
    requires NoSplices(a)
    ensures Track(id, a + b) == Track(id, b)
    decreases |a|
  {
    if a == [] {
      assert [] + b == b;
    } else {
      assert (a + b)[0] == a[0] && (a + b)[1..] == a[1..] + b;
      TrackConcat(id, a[1..], b);
    }
  }

  predicate SameValues(a: seq<Rec>, b: seq<Rec>) {
    |a| == |b| && forall i | 0 <= i < |a| :: ValueOf(a[i]) == ValueOf(b[i])
  }

  lemma {:induction false} SameValuesFinal(a: seq<Rec>, b: seq<Rec>, at: nat, bt: nat, key: Slot)
    requires Block(a, at) && Block(b, bt) && SameValues(a, b)
    ensures Final(a, at, key) == Final(b, bt, key)
  {
    if a != [] {
      assert ValueOf(a[0]) == ValueOf(b[0]);
      forall i | 0 <= i < |a[1..]| ensures ValueOf(a[1..][i]) == ValueOf(b[1..][i]) {
        assert ValueOf(a[i + 1]) == ValueOf(b[i + 1]);
      }
      SameValuesFinal(a[1..], b[1..], at, bt, key);
      TrackPlain(at, a[1..]);
      TrackPlain(bt, b[1..]);
    }
  }

  lemma SameValuesConcat(a: seq<Rec>, b: seq<Rec>, c: seq<Rec>, d: seq<Rec>)
    requires SameValues(a, b) && SameValues(c, d)
    ensures SameValues(a + c, b + d)
  {
  }

  lemma SameWants(w: Window, x: Window, kind: bv11)
    requires x == w.(diff := x.diff)
    ensures w.Wants(kind) == x.Wants(kind)
  {
    hide MaskSees;
  }

  lemma KeepValues(r: Rec, later: seq<Rec>, w: Window, x: Window)
    requires AllOnDisk(later) && w.Valid() && x.Valid() && x == w.(diff := x.diff)
    ensures SameValues(Keep(r, later, w), Keep(r, later, x))
  {
    hide Window.Wants, Filter, Entry, Replay, Final, Track, IsAttr, OnDisk;
    SameWants(w, x, r.tag.kind);
    if w.Wants(r.tag.kind) && Filter(r.tag, later).Some? {
      var t := Filter(r.tag, later).value;
      if w.begin <= t.id < w.end {
        assert Keep(r, later, w) == [Rec(t.(id := t.id + w.diff), r.data)];
        assert Keep(r, later, x) == [Rec(t.(id := t.id + x.diff), r.data)];
      }
    }
  }

  lemma {:induction false} EmitLogValues(log: seq<Rec>, later: seq<Rec>, w: Window, x: Window)
    requires AllOnDisk(log) && AllOnDisk(later) && w.Valid() && x.Valid() && x == w.(diff := x.diff)
    ensures SameValues(EmitLog(log, later, w), EmitLog(log, later, x))
  {
    if log != [] {
      EmitLogValues(log[1..], later, w, x);
      KeepValues(log[0], log[1..] + later, w, x);
      var a, b := Keep(log[0], log[1..] + later, w), Keep(log[0], log[1..] + later, x);
      var c, d := EmitLog(log[1..], later, w), EmitLog(log[1..], later, x);
      SameValuesConcat(a, b, c, d);
    }
  }

  /** An item expands to the same values wherever it lands. */
  lemma ExpandAnywhere(item: Item, a: nat, b: nat, key: Slot)
    requires ItemOk(item) && !item.Plain?
    ensures Block(Expand(item, a), a) && Block(Expand(item, b), b)
    ensures Final(Expand(item, a), a, key) == Final(Expand(item, b), b, key)
  {
    ExpandInside(item, a);
    ExpandInside(item, b);
    if item.Move? {
      EmitLogValues(item.src, [], MoveWindow(item.fromId, a), MoveWindow(item.fromId, b));
    }
    SameValuesFinal(Expand(item, a), Expand(item, b), a, b, key);
  }

  // ---- Attribute lists ----

  /** No plain item of the list removes an attribute. */
  predicate NoRemovals(items: seq<Item>) {
    forall i | 0 <= i < |items| :: items[i].Plain? && IsAttr(items[i].rec.tag.kind) ==> !items[i].rec.tag.IsDelete()
  }

  /**
   * No attribute is removed after a LFS_FROM_* item: the shape of the lists that the filesystem commits. See Resurrects
   * for what a removal behind such an item can do.
   */
  predicate RemovalsFirst(items: seq<Item>) {
    forall i | 0 <= i < |items| && (items[i].Move? || items[i].UserAttrs?) :: NoRemovals(items[i + 1..])
  }

  lemma {:induction false} NoFromSlot(log: seq<Rec>, id: nat, kind: bv11)
    requires AllOnDisk(log) && Type1(kind) == TYPE_FROM
    ensures Final(log, id, Key(kind)) == None
  {
    if log != [] {
      NoFromSlot(log[1..], id, kind);
      if Key(log[0].tag.kind) == Key(kind) {
        SameSlotSameType(log[0].tag.kind, kind);
      }
    }
  }

  lemma {:induction false} EmitItemsInside(items: seq<Item>, begin: nat, end: nat)
    requires ItemsOk(items)
    ensures Inside(EmitItems(items, CompactWindow(begin, end)), CompactWindow(begin, end))
  {
    if items != [] {
      var w := CompactWindow(begin, end);
      EmitItemsInside(items[1..], begin, end);
      FlattenOnDisk(items[1..]);
      KeepItemInside(items[0], Flatten(items[1..]), begin, end);
    }
  }

  lemma WantedByCompact(kind: bv11, begin: nat, end: nat)
    ensures CompactWindow(begin, end).Wants(kind) <==> kind & 0x400 == 0
    ensures CompactWindow(begin, end).Wants(FROM_MOVE) && CompactWindow(begin, end).Wants(FROM_USERATTRS)
    ensures WantsOnlyAttrs(CompactWindow(begin, end)) && Coarse(CompactWindow(begin, end))
  {
    assert 0x400 & kind == kind & 0x400;
  }

  lemma KeepItemInside(item: Item, later: seq<Rec>, begin: nat, end: nat)
    requires ItemOk(item) && AllOnDisk(later)
    ensures Inside(KeepItem(item, later, CompactWindow(begin, end)), CompactWindow(begin, end))
  {
    var w := CompactWindow(begin, end);
    WantedByCompact(ItemTag(item).kind, begin, end);
    if KeepItem(item, later, w) != [] {
      var id := Filter(ItemTag(item), later).value.id + w.diff;
      if item.Plain? {
        WantedIsAttr(w, item.rec);
      } else {
        ExpandInside(item, id);
        forall i | 0 <= i < |Expand(item, id)| ensures w.Wants(Expand(item, id)[i].tag.kind) {
          WantedByCompact(Expand(item, id)[i].tag.kind, begin, end);
        }
      }
    }
  }

  lemma InsideHasNoSplices(recs: seq<Rec>, w: Window)
    requires Inside(recs, w)
    ensures NoSplices(recs)
  {
  }

  /** A plain item is kept as a log record is. */
  lemma PlainItemIsRecord(r: Rec, later: seq<Rec>, w: Window)
    requires OnDisk(r) && AllOnDisk(later) && w.Valid()
    ensures KeepItem(Plain(r), later, w) == Keep(r, later, w)
  {
    FilterKeepsFields(r.tag, later);
  }

  /** Does an item stand for several tags? */
  predicate Special(item: Item) { item.Move? || item.UserAttrs? }

  /**
   * Is the last write to a slot of an id a removal that the filter drops? That is a plain removal with some tag after
   * it, none of which writes the slot or deletes the id.
   */
  predicate RemovalDropped(items: seq<Item>, id: nat, key: Slot)
    requires ItemsOk(items)
    decreases |items|
  {
    items != [] &&
    var rest := items[1..];
    if Final(Flatten(rest), id, key).Some? then RemovalDropped(rest, id, key)
    else
      && items[0].Plain? && items[0].rec.tag.IsDelete() && Flatten(rest) != []
      && Writes(items[0].rec, Flatten(rest), id, key)
  }

  /** What the last LFS_FROM_* item to bring in a slot of an id brings. */
  function Brought(items: seq<Item>, id: nat, key: Slot): Option<Value>
    requires ItemsOk(items)
    decreases |items|
  {
    if items == [] then None
    else
      var rest, at := items[1..], ItemTag(items[0]).id;
      match Brought(rest, id, key)
      case Some(v) => Some(v)
      case None =>
        if Special(items[0]) && Track(at, Flatten(rest)) == Some(id) then Final(Expand(items[0], at), at, key) else None
  }

  /**
   * A LFS_FROM_* item is filtered as one tag, so what it brings outlives a later removal that is itself dropped: the
   * removed attribute is back.
   */
  predicate Resurrects(items: seq<Item>, id: nat, key: Slot)
    requires ItemsOk(items)
  {
    RemovalDropped(items, id, key) && Live(Brought(items, id, key)).Some?
  }

  /** The list resurrects nothing. */
  ghost predicate Harmless(items: seq<Item>)
    requires ItemsOk(items)
  {
    forall id: nat, key: Slot :: !Resurrects(items, id, key)
  }

  lemma {:induction false} DroppedIsRemoval(items: seq<Item>, id: nat, key: Slot)
    requires ItemsOk(items)
    ensures RemovalDropped(items, id, key) ==>
              Final(Flatten(items), id, key).Some? && Final(Flatten(items), id, key).value.Deleted()
    decreases |items|
  {
    hide Final, IsAttr, Key, Track;
    if items != [] {
      DroppedIsRemoval(items[1..], id, key);
      FlattenFinal(items, id, key);
    }
  }

  /** What an item does to a slot, given what comes after it. */
  lemma FlattenFinal(items: seq<Item>, id: nat, key: Slot)
    requires ItemsOk(items) && items != []
    ensures var rest, at := Flatten(items[1..]), ItemTag(items[0]).id;
            Final(Flatten(items), id, key) ==
            match Final(rest, id, key) {
              case Some(v) => Some(v)
              case None =>
                if items[0].Plain? then
                  if Writes(items[0].rec, rest, id, key) then Some(ValueOf(items[0].rec)) else None
                else if Special(items[0]) && Track(at, rest) == Some(id) then
                  Final(Expand(items[0], at), at, key)
                else None
            }
  {
    hide Final, IsAttr, Key, Track;
    var rest, at := Flatten(items[1..]), ItemTag(items[0]).id;
    if items[0].Plain? {
      assert Expand(items[0], at) == [items[0].rec];
      FinalCons(items[0].rec, rest, id, key);
    } else {
      ExpandAnywhere(items[0], at, at, key);
      BlockFinal(Expand(items[0], at), rest, at, id, key);
      if items[0].Noop? {
        FinalNil(at, key);
      }
    }
  }

  lemma {:induction false} BroughtIsWritten(items: seq<Item>, id: nat, key: Slot)
    requires ItemsOk(items)
    ensures Brought(items, id, key).Some? ==> Final(Flatten(items), id, key).Some?
    decreases |items|
  {
    hide Final, IsAttr, Key, Track, Expand;
    if items != [] {
      BroughtIsWritten(items[1..], id, key);
      FlattenFinal(items, id, key);
    }
  }

  /** A LFS_FROM_* item in front of a tail: it shows where the tail shows nothing. */
  lemma SpecialItemExact(item: Item, later: seq<Rec>, begin: nat, end: nat, id: nat, key: Slot, tail: seq<Rec>)
    requires ItemOk(item) && Special(item) && AllOnDisk(later) && begin <= id < end && NoSplices(tail)
    ensures var at := ItemTag(item).id;
            Final(KeepItem(item, later, CompactWindow(begin, end)) + tail, id - begin, key) ==
            match Final(tail, id - begin, key) {
              case Some(v) => Some(v)
              case None => if Track(at, later) == Some(id) then Final(Expand(item, at), at, key) else None
            }
  {
    hide Final, OnDisk;
    var w, t := CompactWindow(begin, end), ItemTag(item);
    WantedByCompact(t.kind, begin, end);
    FilterMeaning(t, later);
    if Track(t.id, later).Some? {
      NoFromSlot(later, Track(t.id, later).value, t.kind);
    }
    FinalNil(id - begin, key);
    if KeepItem(item, later, w) == [] {
      assert [] + tail == tail;
      ExpandAnywhere(item, t.id, id - begin, key);
    } else {
      var at := Filter(t, later).value.id;
      ExpandAnywhere(item, t.id, at - begin, key);
      BlockFinal(Expand(item, at - begin), tail, at - begin, id - begin, key);
      TrackPlain(at - begin, tail);
    }
  }

  lemma NoopKeepsNothing(item: Item, later: seq<Rec>, w: Window)
    requires item.Noop? && AllOnDisk(later) && w.Valid()
    ensures KeepItem(item, later, w) == []
  {
  }

  /** A plain item in front of a tail. */
  lemma PlainItemExact(r: Rec, later: seq<Rec>, begin: nat, end: nat, id: nat, key: Slot, tail: seq<Rec>)
    requires OnDisk(r) && AllOnDisk(later) && begin <= id < end && key.kind & 0x400 == 0 && NoSplices(tail)
    requires Final(later, id, key) == None ==> Final(tail, id - begin, key) == None
    ensures Final(KeepItem(Plain(r), later, CompactWindow(begin, end)) + tail, id - begin, key) ==
            if Final(later, id, key) == None && Writes(r, later, id, key) && (r.tag.IsDelete() ==> later == [])
            then Some(ValueOf(r)) else Final(tail, id - begin, key)
  {
    hide Final, Keep, KeepItem, NoSplices, OnDisk;
    WantedByCompact(key.kind, begin, end);
    PlainItemIsRecord(r, later, CompactWindow(begin, end));
    KeepExact(r, later, CompactWindow(begin, end), id, key, tail);
  }

  /** What is emitted for an attribute list: the last write, or what a dropped removal lets through. */
  lemma {:induction false} EmitItemsExact(items: seq<Item>, begin: nat, end: nat, id: nat, key: Slot)
    requires ItemsOk(items) && begin <= id < end && key.kind & 0x400 == 0
    ensures Final(EmitItems(items, CompactWindow(begin, end)), id - begin, key) ==
            if RemovalDropped(items, id, key) then Brought(items, id, key) else Final(Flatten(items), id, key)
    decreases |items|
  {
    hide KeepItem, Keep, NoSplices, Filter, OnDisk, Final, Track, Flatten, ItemTag, Writes;
    if items == [] {
      FlattenNone();
      FinalNil(id, key);
      FinalNil(id - begin, key);
    } else {
      var w, rest := CompactWindow(begin, end), items[1..];
      EmitItemsExact(rest, begin, end, id, key);
      FlattenOnDisk(rest);
      EmitItemsInside(rest, begin, end);
      InsideHasNoSplices(EmitItems(rest, w), w);
      DroppedIsRemoval(rest, id, key);
      BroughtIsWritten(rest, id, key);
      FlattenFinal(items, id, key);
      match items[0]
      case Plain(r) => PlainItemExact(r, Flatten(rest), begin, end, id, key, EmitItems(rest, w));
      case Noop =>
        NoopKeepsNothing(items[0], Flatten(rest), w);
        assert [] + EmitItems(rest, w) == EmitItems(rest, w);
      case _ => SpecialItemExact(items[0], Flatten(rest), begin, end, id, key, EmitItems(rest, w));
    }
  }

  lemma FlattenNone()
    ensures Flatten([]) == []
  {
  }

  // ---- Main results ----

  lemma {:induction false} FinalIsAttr(log: seq<Rec>, id: nat, key: Slot)
    ensures Final(log, id, key).Some? ==>
            Key(Final(log, id, key).value.kind) == key && IsAttr(Final(log, id, key).value.kind)
    ensures Final(log, id, key).Some? ==> key.kind & 0x400 == 0
  {
    if log != [] {
      FinalIsAttr(log[1..], id, key);
      if IsAttr(log[0].tag.kind) {
        AttrSlot(log[0].tag.kind);
      }
    }
  }

  lemma AttrSlot(kind: bv11)
    requires IsAttr(kind)
    ensures Key(kind).kind & 0x400 == 0
  {
  }

  /** In a log of plain records, only a record under an id gives that id a value. */
  lemma {:induction false} FinalNeedsRecord(recs: seq<Rec>, id: nat, key: Slot)
    requires NoSplices(recs)
    ensures Final(recs, id, key).Some? ==>
            exists i | 0 <= i < |recs| :: recs[i].tag.id == id && Key(recs[i].tag.kind) == key
  {
    if recs != [] {
      FinalNeedsRecord(recs[1..], id, key);
      TrackPlain(recs[0].tag.id, recs[1..]);
      if Final(recs[1..], id, key).Some? {
        var i :| 0 <= i < |recs[1..]| && recs[1..][i].tag.id == id && Key(recs[1..][i].tag.kind) == key;
        assert recs[i + 1].tag.id == id && Key(recs[i + 1].tag.kind) == key;
      } else if Final(recs, id, key).Some? {
        assert recs[0].tag.id == id && Key(recs[0].tag.kind) == key;
      }
    }
  }

  lemma SameFinalSameAttrs(a: seq<Rec>, i: nat, b: seq<Rec>, j: nat)
    requires forall key :: Live(Final(a, i, key)) == Live(Final(b, j, key))
    ensures Attrs(Entry(Replay(a), i)) == Attrs(Entry(Replay(b), j))
  {
    var m, n := Attrs(Entry(Replay(a), i)), Attrs(Entry(Replay(b), j));
    forall key ensures Find(m, key) == Find(n, key) {
      AttrsIsLastWrite(Entry(Replay(a), i), key);
      AttrsIsLastWrite(Entry(Replay(b), j), key);
      FinalIsReplay(a, i, key);
      FinalIsReplay(b, j, key);
      assert Live(Final(a, i, key)) == Live(Final(b, j, key));
    }
    AttrsEqual(m, n);
  }

  lemma NoFinalNoAttrs(log: seq<Rec>, id: nat)
    requires forall key :: Final(log, id, key) == None
    ensures Attrs(Entry(Replay(log), id)) == map[]
  {
    SameFinalSameAttrs(log, id, [], id);
  }

  predicate HasName(d: Dir, id: nat) { Slot(TYPE_NAME) in Attrs(Entry(d, id)) }

  /** Without splices the count is one more than the largest named id. */
  lemma {:induction false} CountOfPlain(recs: seq<Rec>, n: nat, id: nat)
    requires NoSplices(recs)
    requires forall i | 0 <= i < |recs| :: recs[i].tag.id < n
    ensures Replay(recs).count <= n
    ensures LastWrite(Entry(Replay(recs), id), Slot(TYPE_NAME)).Some? ==> id < Replay(recs).count
    decreases |recs|
  {
    if recs != [] {
      var front, r := recs[..|recs| - 1], recs[|recs| - 1];
      CountOfPlain(front, n, id);
      ApplyEntry(Replay(front), r, id);
      NameSlot(r.tag.kind);
      var e := Entry(Replay(front), id);
      assert (e + [ValueOf(r)])[..|e|] == e;
    }
  }

  lemma NameSlot(kind: bv11)
    ensures IsAttr(kind) && Key(kind) == Slot(TYPE_NAME) ==> Type1(kind) == TYPE_NAME
  {
  }

  /** One id and one slot of the compacted log, exactly. */
  lemma EmitExact(log: seq<Rec>, items: seq<Item>, begin: nat, end: nat, id: nat, key: Slot)
    requires AllOnDisk(log) && ItemsOk(items) && begin <= id < end && key.kind & 0x400 == 0
    ensures var got := Final(Emit(log, items, CompactWindow(begin, end)), id - begin, key);
            var want := Final(log + Flatten(items), id, key);
            if RemovalDropped(items, id, key) then got == Brought(items, id, key) && want.Some? && want.value.Deleted()
            else Agree(got, want)
  {
    hide Final, EmitLog, EmitItems, Flatten, RemovalDropped, Brought, NoSplices, OnDisk, ItemOk;
    var w := CompactWindow(begin, end);
    FlattenOnDisk(items);
    EmitItemsExact(items, begin, end, id, key);
    DroppedIsRemoval(items, id, key);
    BroughtIsWritten(items, id, key);
    EmitItemsInside(items, begin, end);
    InsideHasNoSplices(EmitItems(items, w), w);
    WantedByCompact(key.kind, begin, end);
    EmitLogExact(log, Flatten(items), w, id, key, EmitItems(items, w));
  }

  /** A slot of an id survives compaction exactly if the attribute list does not resurrect it. */
  lemma CompactionFinal(log: seq<Rec>, items: seq<Item>, begin: nat, end: nat, id: nat, key: Slot)
    requires AllOnDisk(log) && ItemsOk(items) && begin <= id < end
    ensures Live(Final(Emit(log, items, CompactWindow(begin, end)), id - begin, key)) ==
            Live(Final(log + Flatten(items), id, key))
            <==> !Resurrects(items, id, key)
  {
    hide Final, Emit, Flatten, RemovalDropped, Brought, OnDisk, ItemOk;
    if key.kind & 0x400 == 0 {
      EmitExact(log, items, begin, end, id, key);
    } else {
      FinalIsAttr(Emit(log, items, CompactWindow(begin, end)), id - begin, key);
      FinalIsAttr(log + Flatten(items), id, key);
      DroppedIsRemoval(items, id, key);
      FinalIsAttr(Flatten(items), id, key);
    }
  }

  lemma AttrsHave(log: seq<Rec>, id: nat, key: Slot)
    ensures Find(Attrs(Entry(Replay(log), id)), key) == Live(Final(log, id, key))
  {
    hide Attrs, Final, Replay, Entry;
    FinalIsReplay(log, id, key);
    AttrsIsLastWrite(Entry(Replay(log), id), key);
  }

  /** An entry survives compaction exactly if the attribute list resurrects none of its slots. */
  lemma EntryExactly(log: seq<Rec>, items: seq<Item>, begin: nat, end: nat, id: nat)
    requires AllOnDisk(log) && ItemsOk(items) && begin <= id < end
    ensures Attrs(Entry(Replay(Emit(log, items, CompactWindow(begin, end))), id - begin)) ==
            Attrs(Entry(Replay(log + Flatten(items)), id))
            <==> forall key: Slot :: !Resurrects(items, id, key)
  {
    hide Emit, Flatten, Attrs, Final, Replay, Entry, Resurrects, OnDisk, ItemOk;
    var out, s := Emit(log, items, CompactWindow(begin, end)), log + Flatten(items);
    var m, n := Attrs(Entry(Replay(out), id - begin)), Attrs(Entry(Replay(s), id));
    forall key: Slot ensures Find(m, key) == Find(n, key) <==> !Resurrects(items, id, key) {
      CompactionFinal(log, items, begin, end, id, key);
      AttrsHave(out, id - begin, key);
      AttrsHave(s, id, key);
    }
    if forall key: Slot :: !Resurrects(items, id, key) {
      AttrsEqual(m, n);
    }
  }

  /** The entries of [begin, end) of one directory, renumbered from 0 in another. */
  ghost predicate EntriesCarried(before: Dir, after: Dir, begin: nat, end: nat) {
    forall id: nat | begin <= id < end :: Attrs(Entry(after, id - begin)) == Attrs(Entry(before, id))
  }

  /**
   * Compaction preserves meaning: exactly when the attribute list resurrects nothing, every entry of [begin, end) of
   * what lfs_dir_traverse emits has the attributes that the log followed by the list gives it.
   */
  lemma CompactionExactly(log: seq<Rec>, items: seq<Item>, begin: nat, end: nat)
    requires AllOnDisk(log) && ItemsOk(items) && begin <= end
    ensures EntriesCarried(Replay(log + Flatten(items)), Replay(Emit(log, items, CompactWindow(begin, end))),
                           begin, end)
            <==> forall id: nat, key: Slot | begin <= id < end :: !Resurrects(items, id, key)
  {
    hide Emit, Flatten, Attrs, Replay, Entry, Resurrects, OnDisk, ItemOk;
    var before, after := Replay(log + Flatten(items)), Replay(Emit(log, items, CompactWindow(begin, end)));
    forall id: nat | begin <= id < end
      ensures Attrs(Entry(after, id - begin)) == Attrs(Entry(before, id)) <==>
              forall key: Slot :: !Resurrects(items, id, key)
    {
      EntryExactly(log, items, begin, end, id);
    }
    if forall id: nat, key: Slot | begin <= id < end :: !Resurrects(items, id, key) {
      forall id: nat | begin <= id < end ensures Attrs(Entry(after, id - begin)) == Attrs(Entry(before, id)) {
        assert forall key: Slot :: !Resurrects(items, id, key);
      }
      assert EntriesCarried(before, after, begin, end);
    } else {
      var id: nat, key: Slot :| begin <= id < end && Resurrects(items, id, key);
      assert Attrs(Entry(after, id - begin)) != Attrs(Entry(before, id));
      assert !EntriesCarried(before, after, begin, end);
    }
  }

  /** The whole compacted directory, for a list that resurrects nothing: renumbered from 0, nothing beyond. */
  lemma CompactionPreserves(log: seq<Rec>, items: seq<Item>, begin: nat, end: nat)
    requires AllOnDisk(log) && ItemsOk(items) && Harmless(items) && begin <= end
    ensures var before, after := Replay(log + Flatten(items)), Replay(Emit(log, items, CompactWindow(begin, end)));
            && (forall id: nat | id < end - begin :: Attrs(Entry(after, id)) == Attrs(Entry(before, begin + id)))
            && (forall id: nat | id >= end - begin :: Attrs(Entry(after, id)) == map[])
            && (begin < end && HasName(before, end - 1) ==> after.count == end - begin)
            && (begin == end ==> after.count == 0)
  {
    hide Emit, Flatten, ItemsOk, Resurrects, Attrs, Replay, Entry, OnDisk, Filter;
    var w, s := CompactWindow(begin, end), log + Flatten(items);
    var out := Emit(log, items, w);
    EmitInside(log, items, begin, end);
    InsideHasNoSplices(out, w);
    forall id: nat | id < end - begin
      ensures Attrs(Entry(Replay(out), id)) == Attrs(Entry(Replay(s), begin + id))
    {
      EntryExactly(log, items, begin, end, begin + id);
    }
    forall id: nat | id >= end - begin ensures Attrs(Entry(Replay(out), id)) == map[] {
      forall key ensures Final(out, id, key) == None {
        FinalNeedsRecord(out, id, key);
      }
      NoFinalNoAttrs(out, id);
    }
    if begin < end {
      CountOfPlain(out, end - begin, end - begin - 1);
      AttrsIsLastWrite(Entry(Replay(out), end - begin - 1), Slot(TYPE_NAME));
    } else {
      InsideNothing(out, w);
      ReplayNothing();
    }
  }

  lemma InsideAt(out: seq<Rec>, w: Window, i: nat)
    requires Inside(out, w) && i < |out|
    ensures w.begin + w.diff <= out[i].tag.id < w.end + w.diff
  {
  }

  lemma InsideNothing(out: seq<Rec>, w: Window)
    requires Inside(out, w) && w.begin == w.end
    ensures out == []
  {
    if out != [] {
      InsideAt(out, w, 0);
      assert false;
    }
  }

  lemma ReplayNothing()
    ensures Replay([]) == EMPTY
  {
  }

  lemma EmitInside(log: seq<Rec>, items: seq<Item>, begin: nat, end: nat)
    requires AllOnDisk(log) && ItemsOk(items)
    ensures Inside(Emit(log, items, CompactWindow(begin, end)), CompactWindow(begin, end))
  {
    FlattenOnDisk(items);
    WantedByCompact(0, begin, end);
    EmitLogInside(log, Flatten(items), CompactWindow(begin, end));
    EmitItemsInside(items, begin, end);
  }

  /** The attributes that LFS_FROM_MOVE carries: the struct and the user attributes, not the name. */
  function Movable(m: map<Slot, Value>): map<Slot, Value> {
    map slot | slot in m && slot.kind & 0x600 == TYPE_STRUCT :: m[slot]
  }

  /** LFS_FROM_MOVE copies exactly the struct and user attributes of the moved entry, under the new id. */
  lemma MoveCopies(src: seq<Rec>, from: nat, to: nat)
    requires AllOnDisk(src)
    ensures var copied := Replay(EmitLog(src, [], MoveWindow(from, to)));
            && Attrs(Entry(copied, to)) == Movable(Attrs(Entry(Replay(src), from)))
            && forall id: nat | id != to :: Attrs(Entry(copied, id)) == map[]
  {
    var out := EmitLog(src, [], MoveWindow(from, to));
    var m, n := Attrs(Entry(Replay(out), to)), Movable(Attrs(Entry(Replay(src), from)));
    forall key ensures Find(m, key) == Find(n, key) {
      MoveCopiesSlot(src, from, to, key);
      AttrsIsLastWrite(Entry(Replay(out), to), key);
      AttrsIsLastWrite(Entry(Replay(src), from), key);
      FinalIsReplay(out, to, key);
      FinalIsReplay(src, from, key);
    }
    AttrsEqual(m, n);
    MoveWants(MoveWindow(from, to), 0);
    EmitLogInside(src, [], MoveWindow(from, to));
    forall id: nat | id != to ensures Attrs(Entry(Replay(out), id)) == map[] {
      forall key ensures Final(out, id, key) == None {
        FinalNeedsRecord(out, id, key);
      }
      NoFinalNoAttrs(out, id);
    }
  }

  lemma MoveCopiesSlot(src: seq<Rec>, from: nat, to: nat, key: Slot)
    requires AllOnDisk(src)
    ensures Live(Final(EmitLog(src, [], MoveWindow(from, to)), to, key)) ==
            if key.kind & 0x600 == TYPE_STRUCT then Live(Final(src, from, key)) else None
  {
    var w := MoveWindow(from, to);
    var out := EmitLog(src, [], w);
    MoveWants(w, key.kind);
    EmitLogInside(src, [], w);
    InsideHasNoSplices(out, w);
    assert out + [] == out && src + [] == src;
    if w.Wants(key.kind) {
      FinalNil(from, key);
      FinalNil(to, key);
      EmitLogExact(src, [], w, from, key, []);
    } else {
      FinalNeedsRecord(out, to, key);
      forall i | 0 <= i < |out| ensures Key(out[i].tag.kind) != key {
        WantsKey(w, out[i].tag.kind);
      }
    }
  }

  lemma MoveWants(w: Window, kind: bv11)
    requires w.kmask == 0x600 && w.kval == TYPE_STRUCT
    ensures w.Wants(kind) <==> kind & 0x600 == TYPE_STRUCT
    ensures Coarse(w)
  {
    assert 0x600 & kind == kind & 0x600;
  }

  // ---- Which lists resurrect something ----

  lemma {:induction false} NoRemovalsNoDrop(items: seq<Item>, id: nat, key: Slot)
    requires ItemsOk(items) && NoRemovals(items)
    ensures !RemovalDropped(items, id, key)
    decreases |items|
  {
    hide Final, IsAttr, Key, Track, Flatten;
    if items != [] {
      NoRemovalsNoDrop(items[1..], id, key);
    }
  }

  /** Lists that remove attributes only before their first LFS_FROM_* item resurrect nothing. */
  lemma {:induction false} RemovalsFirstNoDrop(items: seq<Item>, id: nat, key: Slot)
    requires ItemsOk(items) && RemovalsFirst(items)
    ensures !Resurrects(items, id, key)
    decreases |items|
  {
    hide Final, Writes, Track, Flatten, NoRemovals, Expand;
    if items != [] {
      var rest := items[1..];
      forall i | 0 <= i < |rest| && Special(rest[i]) ensures NoRemovals(rest[i + 1..]) {
        assert rest[i + 1..] == items[i + 2..];
      }
      RemovalsFirstNoDrop(rest, id, key);
      BroughtIsWritten(rest, id, key);
      if Special(items[0]) {
        NoRemovalsNoDrop(rest, id, key);
      }
    }
  }

  /**
   * Every list that the filesystem commits is harmless: the only ones with a LFS_FROM_* item end with it (a file sync)
   * or with the delete of an entry behind it (a rename; see RenameItems).
   */
  lemma RemovalsFirstIsHarmless(items: seq<Item>)
    requires ItemsOk(items) && RemovalsFirst(items)
    ensures Harmless(items)
  {
    hide Resurrects;
    forall id: nat, key: Slot ensures !Resurrects(items, id, key) {
      RemovalsFirstNoDrop(items, id, key);
    }
  }

  /** The list of lfs_file_rawsync. */
  lemma SyncIsHarmless(r: Rec, id: nat, attrs: seq<UserAttr>)
    requires ItemsOk([Plain(r), UserAttrs(id, attrs)])
    ensures Harmless([Plain(r), UserAttrs(id, attrs)])
  {
    hide Harmless;
    RemovalsFirstIsHarmless([Plain(r), UserAttrs(id, attrs)]);
  }

  const REMOVAL := Rec(Tag(0x301, 0, DELETED_SIZE), [])
  const STRUCT := Rec(Tag(0x201, 0, 0), [])

  lemma ExampleKinds(a: UserAttr)
    requires a.kind == 1
    ensures TYPE_USERATTR | (a.kind as bv11) == 0x301 && IsAttr(0x301) && IsAttr(0x201)
    ensures Key(0x301) == Slot(0x301) && Key(0x201) != Slot(0x301)
    ensures OnDisk(REMOVAL) && OnDisk(STRUCT)
  {
  }

  /**
   * A list that no caller commits: a user attribute from a list, its removal, and another tag. The attribute is back.
   */
  lemma RemovalAfterListResurrects(a: UserAttr)
    requires a.kind == 1 && |a.data| < DELETED_SIZE
    ensures ItemsOk([UserAttrs(0, [a]), Plain(REMOVAL), Plain(STRUCT)])
    ensures Resurrects([UserAttrs(0, [a]), Plain(REMOVAL), Plain(STRUCT)], 0, Slot(0x301))
  {
    var items, key := [UserAttrs(0, [a]), Plain(REMOVAL), Plain(STRUCT)], Slot(0x301);
    ExampleKinds(a);
    assert items[1..] == [Plain(REMOVAL), Plain(STRUCT)] && items[1..][1..] == [Plain(STRUCT)]
      && [Plain(STRUCT)][1..] == [];
    assert Flatten([Plain(STRUCT)]) == [STRUCT] && [STRUCT][1..] == [];
    assert Flatten(items[1..]) == [REMOVAL, STRUCT] && [REMOVAL, STRUCT][1..] == [STRUCT];
    assert RemovalDropped(items[1..], 0, key);
    var moved := UserAttrRec(0, a);
    assert Expand(items[0], 0) == [moved] && [moved][1..] == [];
    FinalNil(0, key);
    assert Final([moved], 0, key) == Some(ValueOf(moved));
    assert Brought([Plain(STRUCT)], 0, key) == None;
    assert Brought(items[1..], 0, key) == None;
    assert Track(0, Flatten(items[1..])) == Some(0);
    assert Brought(items, 0, key) == Some(ValueOf(moved));
  }
}
