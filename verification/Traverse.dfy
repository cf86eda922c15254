/**
 * Compaction: lfs_dir_traverse with lfs_dir_traverse_filter rewrites a log without its redundant tags.
 * The rewritten log replays to the same directory.
 */
module Traverse {
  import opened Words
  import opened Tags
  import opened Log

  // ---- What a traversal emits ----

  /** The mask under which a later tag overwrites an earlier one. */
  function SlotMask(kind: bv11): bv11 {
    if kind & 0x100 != 0 then 0x7ff else 0x700
  }

  /** One call of lfs_dir_traverse_filter: None when the tag is redundant, else the tag renumbered past a splice. */
  function FilterStep(t: Tag, later: Rec): Option<Tag>
    requires OnDisk(later)
  {
    var l := later.tag;
    var mask := SlotMask(l.kind);
    if (mask & l.kind == mask & t.kind && l.id == t.id)
       || t.IsDelete()
       || (l.kind == TYPE_DELETE && l.id == t.id)
    then None
    else if Type1(l.kind) == TYPE_SPLICE && l.id <= t.id then Some(t.(id := t.id + Splice(l.kind)))
    else Some(t)
  }

  /** The nested traversal: every later tag is offered to the filter, which stops at the first redundancy. */
  function Filter(t: Tag, later: seq<Rec>): Option<Tag>
    requires AllOnDisk(later)
    decreases |later|
  {
    if later == [] then Some(t)
    else
      match FilterStep(t, later[0])
      case None => None
      case Some(u) => Filter(u, later[1..])
  }

  predicate MaskSees(mask: bv11, val: bv11, kind: bv11) { mask & kind == mask & val }

  /** A filtered traversal: the types wanted, the ids wanted, and the renumbering of the ids written. */
  datatype Window = Window(kmask: bv11, kval: bv11, begin: nat, end: nat, diff: int) {
    ghost predicate Valid() { begin + diff >= 0 && kval & kmask == kval }
    predicate Wants(kind: bv11) { MaskSees(kmask, kval, kind) }
  }

  function Keep(r: Rec, later: seq<Rec>, w: Window): seq<Rec>
    requires AllOnDisk(later) && w.Valid()
  {
    if !w.Wants(r.tag.kind) then []
    else
      match Filter(r.tag, later)
      case None => []
      case Some(t) => if w.begin <= t.id < w.end then [Rec(t.(id := t.id + w.diff), r.data)] else []
  }

  /** The part of a traversal that walks the log; later is everything after the log. */
  function EmitLog(log: seq<Rec>, later: seq<Rec>, w: Window): seq<Rec>
    requires AllOnDisk(log) && AllOnDisk(later) && w.Valid()
  {
    if log == [] then [] else Keep(log[0], log[1..] + later, w) + EmitLog(log[1..], later, w)
  }

  /** A struct lfs_attr: a one-byte type and its bytes. */
  datatype UserAttr = UserAttr(kind: bv8, data: seq<Byte>)

  /** The attribute lists handed to a commit; LFS_FROM_* items stand for other tags. */
  datatype Item =
    | Plain(rec: Rec)
    | Noop
    | Move(toId: nat, src: seq<Rec>, fromId: nat)
    | UserAttrs(id: nat, attrs: seq<UserAttr>)

  function ItemTag(item: Item): Tag {
    match item
    case Plain(r) => r.tag
    case Noop => Tag(FROM_NOOP, 0, 0)
    case Move(to, _, from) => Tag(FROM_MOVE, to, from)
    case UserAttrs(id, attrs) => Tag(FROM_USERATTRS, id, |attrs|)
  }

  /** The attribute counts and ids that LFS_FROM_* tags carry in their size field stay below "deleted". */
  predicate ItemOk(item: Item) {
    match item
    case Plain(r) => OnDisk(r)
    case Noop => true
    case Move(_, src, from) => AllOnDisk(src) && from < DELETED_SIZE
    case UserAttrs(_, attrs) =>
      && |attrs| < DELETED_SIZE
      && forall i | 0 <= i < |attrs| :: |attrs[i].data| < DELETED_SIZE
  }

  predicate ItemsOk(items: seq<Item>) { forall i | 0 <= i < |items| :: ItemOk(items[i]) }

  function MoveWindow(from: nat, to: nat): (w: Window)
    ensures w.Valid()
  {
    Window(0x600, TYPE_STRUCT, from, from + 1, to - from)
  }

  function UserAttrRec(id: nat, a: UserAttr): Rec {
    Rec(Tag(TYPE_USERATTR | (a.kind as bv11), id, |a.data|), a.data)
  }

  function UserAttrRecs(id: nat, attrs: seq<UserAttr>): seq<Rec> {
    seq(|attrs|, i requires 0 <= i < |attrs| => UserAttrRec(id, attrs[i]))
  }

  /** The tags an item stands for when it lands on an id. */
  function Expand(item: Item, id: nat): seq<Rec>
    requires ItemOk(item)
  {
    match item
    case Plain(r) => [Rec(r.tag.(id := id), r.data)]
    case Noop => []
    case Move(_, src, from) => EmitLog(src, [], MoveWindow(from, id))
    case UserAttrs(_, attrs) => UserAttrRecs(id, attrs)
  }

  /** The tags of an attribute list in order: what an unfiltered traversal emits and a filter sees. */
  function Flatten(items: seq<Item>): seq<Rec>
    requires ItemsOk(items)
  {
    if items == [] then [] else Expand(items[0], ItemTag(items[0]).id) + Flatten(items[1..])
  }

  /** An item is filtered as one tag and then expanded. */
  function KeepItem(item: Item, later: seq<Rec>, w: Window): seq<Rec>
    requires ItemOk(item) && AllOnDisk(later) && w.Valid()
  {
    if !w.Wants(ItemTag(item).kind) then []
    else
      match Filter(ItemTag(item), later)
      case None => []
      case Some(t) => if w.begin <= t.id < w.end then Expand(item, t.id + w.diff) else []
  }

  function EmitItems(items: seq<Item>, w: Window): seq<Rec>
    requires ItemsOk(items) && w.Valid()
  {
    if items == [] then []
    else
      FlattenOnDisk(items[1..]);
      KeepItem(items[0], Flatten(items[1..]), w) + EmitItems(items[1..], w)
  }

  /** Everything a filtered lfs_dir_traverse hands to its callback. */
  function Emit(log: seq<Rec>, items: seq<Item>, w: Window): seq<Rec>
    requires AllOnDisk(log) && ItemsOk(items) && w.Valid()
  {
    FlattenOnDisk(items);
    EmitLog(log, Flatten(items), w) + EmitItems(items, w)
  }

  /** The traversal that lfs_dir_compact runs over ids [begin, end). */
  function CompactWindow(begin: nat, end: nat): (w: Window)
    ensures w.Valid()
  {
    Window(0x400, TYPE_NAME, begin, end, 0 - begin)
  }

  // ---- Shape of what is emitted ----

  /** Attribute records only, inside a window's ids and types. */
  predicate Inside(recs: seq<Rec>, w: Window) {
    forall i | 0 <= i < |recs| ::
      IsAttr(recs[i].tag.kind) && recs[i].tag.kind != FROM_NOOP && w.Wants(recs[i].tag.kind) &&
      w.begin + w.diff <= recs[i].tag.id < w.end + w.diff
  }

  /** A filter only moves the id. */
  lemma {:induction false} FilterKeepsFields(t: Tag, later: seq<Rec>)
    requires AllOnDisk(later)
    ensures Filter(t, later).Some? ==> Filter(t, later).value.kind == t.kind && Filter(t, later).value.size == t.size
    decreases |later|
  {
    if later != [] && FilterStep(t, later[0]).Some? {
      FilterKeepsFields(FilterStep(t, later[0]).value, later[1..]);
    }
  }

  predicate WantsOnlyAttrs(w: Window) { w.kmask & 0x400 != 0 && w.kval & 0x400 == 0 }

  lemma WantedIsAttr(w: Window, r: Rec)
    requires WantsOnlyAttrs(w) && w.Wants(r.tag.kind) && OnDisk(r)
    ensures IsAttr(r.tag.kind)
  {
    AttrBits(w.kmask, w.kval, r.tag.kind);
  }

  lemma AttrBits(kmask: bv11, kval: bv11, kind: bv11)
    requires kmask & 0x400 != 0 && kval & 0x400 == 0 && kmask & kind == kmask & kval
    ensures kind & 0x400 == 0
    ensures kind & 0x700 == TYPE_NAME || kind & 0x700 == TYPE_FROM || kind & 0x700 == TYPE_STRUCT
            || kind & 0x700 == TYPE_USERATTR
  {
  }

  lemma {:induction false} EmitLogInside(log: seq<Rec>, later: seq<Rec>, w: Window)
    requires AllOnDisk(log) && AllOnDisk(later) && w.Valid() && WantsOnlyAttrs(w)
    ensures Inside(EmitLog(log, later, w), w)
  {
    if log != [] {
      EmitLogInside(log[1..], later, w);
      FilterKeepsFields(log[0].tag, log[1..] + later);
      if w.Wants(log[0].tag.kind) {
        WantedIsAttr(w, log[0]);
      }
    }
  }

  lemma UserAttrKind(kind: bv8)
    ensures Type1(TYPE_USERATTR | (kind as bv11)) == TYPE_USERATTR
    ensures TYPE_USERATTR | (kind as bv11) != FROM_NOOP
    ensures (TYPE_USERATTR | (kind as bv11)) & 0x400 == 0
  {
  }

  lemma ExpandInside(item: Item, id: nat)
    requires ItemOk(item) && !item.Plain?
    ensures forall i | 0 <= i < |Expand(item, id)| ::
              var t := Expand(item, id)[i].tag;
              IsAttr(t.kind) && t.kind != FROM_NOOP && t.kind & 0x400 == 0 && t.id == id
  {
    match item
    case Noop =>
    case Move(_, src, from) =>
      EmitLogInside(src, [], MoveWindow(from, id));
      forall k: bv11 | MoveWindow(from, id).Wants(k) ensures k & 0x400 == 0 {
        AttrBits(0x600, TYPE_STRUCT, k);
      }
    case UserAttrs(_, attrs) =>
      forall i | 0 <= i < |attrs|
        ensures var k := UserAttrRecs(id, attrs)[i].tag.kind; IsAttr(k) && k != FROM_NOOP && k & 0x400 == 0
      {
        UserAttrKind(attrs[i].kind);
      }
  }

  lemma {:induction false} FlattenOnDisk(items: seq<Item>)
    requires ItemsOk(items)
    ensures AllOnDisk(Flatten(items))
  {
    if items != [] {
      FlattenOnDisk(items[1..]);
      if !items[0].Plain? {
        ExpandInside(items[0], ItemTag(items[0]).id);
      }
    }
  }

  // ---- The traversal itself ----

  lemma {:induction false} FilterConcat(t: Tag, a: seq<Rec>, b: seq<Rec>)
    requires AllOnDisk(a) && AllOnDisk(b)
    ensures Filter(t, a + b) == match Filter(t, a) { case None => None case Some(u) => Filter(u, b) }
    decreases |a|
  {
    if a == [] {
      assert [] + b == b;
    } else {
      assert (a + b)[0] == a[0] && (a + b)[1..] == a[1..] + b;
      match FilterStep(t, a[0])
      case None =>
      case Some(u) => FilterConcat(u, a[1..], b);
    }
  }

  /** lfs_dir_traverse_filter called on each of some tags, stopping at the first redundancy. */
  method FilterEach(t: Tag, recs: seq<Rec>) returns (r: Option<Tag>)
    requires AllOnDisk(recs)
    ensures r == Filter(t, recs)
  {
    var u := t;
    var i := 0;
    while i < |recs|
      invariant 0 <= i <= |recs|
      invariant Filter(t, recs) == Filter(u, recs[i..])
    {
      assert recs[i..][0] == recs[i] && recs[i..][1..] == recs[i + 1..];
      match FilterStep(u, recs[i])
      case None => return None;
      case Some(v) => u := v;
      i := i + 1;
    }
    return Some(u);
  }

  /** The tags one attribute-list item stands for; LFS_FROM_MOVE is a traversal of the source pair. */
  method ExpandItem(item: Item, id: nat) returns (recs: seq<Rec>)
    requires ItemOk(item)
    ensures recs == Expand(item, id)
    decreases if item.Move? then 1 else 0, 0, 1
  {
    match item
    case Plain(r) => recs := [Rec(r.tag.(id := id), r.data)];
    case Noop => recs := [];
    case Move(_, src, from) =>
      recs := Traverse(src, [], MoveWindow(from, id));
      assert src + [] == src;
    case UserAttrs(_, attrs) =>
      recs := [];
      for i := 0 to |attrs|
        invariant recs == UserAttrRecs(id, attrs)[..i]
      {
        recs := recs + [UserAttrRec(id, attrs[i])];
      }
  }

  /** The unfiltered nested traversal that decides whether a tag is redundant. */
  method FilterRest(t: Tag, log: seq<Rec>, items: seq<Item>) returns (r: Option<Tag>)
    requires AllOnDisk(log) && ItemsOk(items)
    ensures AllOnDisk(Flatten(items)) && r == Filter(t, log + Flatten(items))
    decreases |items|, 1, 0
  {
    FlattenOnDisk(items);
    FilterConcat(t, log, Flatten(items));
    r := FilterEach(t, log);
    if r == None {
      return;
    }
    var j := 0;
    while j < |items|
      invariant 0 <= j <= |items| && r.Some?
      invariant Filter(t, log + Flatten(items)) == (FlattenOnDisk(items[j..]); Filter(r.value, Flatten(items[j..])))
    {
      var rest := items[j + 1..];
      assert items[j..][0] == items[j] && items[j..][1..] == rest;
      var recs := ExpandItem(items[j], ItemTag(items[j]).id);
      FlattenOnDisk(items[j..]);
      FlattenOnDisk(rest);
      ExpandOnDisk(items[j]);
      FilterConcat(r.value, recs, Flatten(rest));
      r := FilterEach(r.value, recs);
      if r == None {
        return;
      }
      j := j + 1;
    }
  }

  lemma ExpandOnDisk(item: Item)
    requires ItemOk(item)
    ensures AllOnDisk(Expand(item, ItemTag(item).id))
  {
    FlattenOnDisk([item]);
    assert [item][1..] == [];
    assert Flatten([item]) == Expand(item, ItemTag(item).id);
  }

  /** One turn of the traversal on a tag read from the log. */
  method KeepRecord(r: Rec, log: seq<Rec>, items: seq<Item>, w: Window) returns (kept: seq<Rec>)
    requires AllOnDisk(log) && ItemsOk(items) && w.Valid()
    ensures AllOnDisk(Flatten(items)) && kept == Keep(r, log + Flatten(items), w)
    decreases |items|, 2, 0
  {
    FlattenOnDisk(items);
    if !w.Wants(r.tag.kind) {
      return [];
    }
    var t := FilterRest(r.tag, log, items);
    if t.Some? && w.begin <= t.value.id < w.end {
      return [Rec(t.value.(id := t.value.id + w.diff), r.data)];
    }
    return [];
  }

  /** One turn of the traversal on an item of the attribute list. */
  method KeepListItem(item: Item, items: seq<Item>, w: Window) returns (kept: seq<Rec>)
    requires ItemOk(item) && ItemsOk(items) && w.Valid()
    ensures AllOnDisk(Flatten(items)) && kept == KeepItem(item, Flatten(items), w)
    decreases |items| + 1, 2, 0
  {
    FlattenOnDisk(items);
    if !w.Wants(ItemTag(item).kind) {
      return [];
    }
    var t := FilterRest(ItemTag(item), [], items);
    assert [] + Flatten(items) == Flatten(items);
    if t.Some? && w.begin <= t.value.id < w.end {
      kept := ExpandItem(item, t.value.id + w.diff);
    } else {
      kept := [];
    }
  }

  lemma EmitLogStep(log: seq<Rec>, i: nat, later: seq<Rec>, w: Window)
    requires i < |log| && AllOnDisk(log) && AllOnDisk(later) && w.Valid()
    ensures EmitLog(log[i..], later, w) == Keep(log[i], log[i + 1..] + later, w) + EmitLog(log[i + 1..], later, w)
  {
    assert log[i..][0] == log[i] && log[i..][1..] == log[i + 1..];
  }

  lemma EmitItemsStep(items: seq<Item>, j: nat, w: Window)
    requires j < |items| && ItemsOk(items) && w.Valid()
    ensures AllOnDisk(Flatten(items[j + 1..]))
    ensures EmitItems(items[j..], w) == KeepItem(items[j], Flatten(items[j + 1..]), w) + EmitItems(items[j + 1..], w)
  {
    FlattenOnDisk(items[j + 1..]);
    assert items[j..][0] == items[j] && items[j..][1..] == items[j + 1..];
  }

  method TraverseLog(log: seq<Rec>, items: seq<Item>, w: Window) returns (out: seq<Rec>)
    requires AllOnDisk(log) && ItemsOk(items) && w.Valid()
    ensures AllOnDisk(Flatten(items)) && out == EmitLog(log, Flatten(items), w)
    decreases |items|, 3, 0
  {
    hide MaskSees, Window.Wants, Filter, FilterStep, Keep, KeepItem, OnDisk;
    FlattenOnDisk(items);
    ghost var all := EmitLog(log, Flatten(items), w);
    out := [];
    assert log[0..] == log;
    for i := 0 to |log|
      invariant all == out + EmitLog(log[i..], Flatten(items), w)
    {
      EmitLogStep(log, i, Flatten(items), w);
      var kept := KeepRecord(log[i], log[i + 1..], items, w);
      out := out + kept;
    }
  }

  method TraverseItems(items: seq<Item>, w: Window) returns (out: seq<Rec>)
    requires ItemsOk(items) && w.Valid()
    ensures out == EmitItems(items, w)
    decreases |items|, 3, 0
  {
    hide MaskSees, Window.Wants, Filter, FilterStep, Keep, KeepItem, OnDisk;
    ghost var all := EmitItems(items, w);
    out := [];
    assert items[0..] == items;
    for j := 0 to |items|
      invariant all == out + EmitItems(items[j..], w)
    {
      EmitItemsStep(items, j, w);
      var kept := KeepListItem(items[j], items[j + 1..], w);
      out := out + kept;
    }
  }

  /**
   * lfs_dir_traverse with an id mask: first the log, then the attribute list, each tag filtered by all that follows.
   */
  method Traverse(log: seq<Rec>, items: seq<Item>, w: Window) returns (out: seq<Rec>)
    requires AllOnDisk(log) && ItemsOk(items) && w.Valid()
    ensures out == Emit(log, items, w)
    decreases |items|, 4, 0
  {
    var fromLog := TraverseLog(log, items, w);
    var fromItems := TraverseItems(items, w);
    out := fromLog + fromItems;
  }
}
