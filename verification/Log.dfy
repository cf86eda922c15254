/**
 * What a metadata log means: a forward replay of its records into a directory.
 * Every reader and writer of the log in this project is compared with this replay.
 */
module Log {
  import opened Words
  import opened Tags

  /** One tag of a log with the bytes that follow it. */
  datatype Rec = Rec(tag: Tag, data: seq<Byte>)

  /** What a record leaves in an entry: the id is the entry's position. */
  datatype Value = Value(kind: bv11, size: nat, data: seq<Byte>) {
    predicate Deleted() { size == DELETED_SIZE }
  }

  function ValueOf(r: Rec): Value { Value(r.tag.kind, r.tag.size, r.data) }

  /** Names, structs and user attributes belong to an entry. */
  predicate IsAttr(kind: bv11) {
    Type1(kind) == TYPE_NAME || Type1(kind) == TYPE_STRUCT || Type1(kind) == TYPE_USERATTR
  }

  /** The tags that reach a log: splices are only ever "create" and "delete", and LFS_FROM_* are expanded first. */
  predicate OnDisk(r: Rec) {
    && (Type1(r.tag.kind) == TYPE_SPLICE ==> r.tag.kind == TYPE_CREATE || r.tag.kind == TYPE_DELETE)
    && Type1(r.tag.kind) != TYPE_FROM
    && r.tag.kind != FROM_NOOP
  }

  predicate AllOnDisk(log: seq<Rec>) { forall i | 0 <= i < |log| :: OnDisk(log[i]) }

  /**
   * A directory: how many ids it has, and for each id the values written since its creation, oldest first.
   * Storage is independent of the count, as in the code: the count grows on a create or a name, shrinks on a delete.
   */
  datatype Dir = Dir(count: int, entries: seq<seq<Value>>)

  const EMPTY: Dir := Dir(0, [])

  /** The values of one id; an id never written to has none. */
  function Entry(d: Dir, id: nat): seq<Value> {
    if id < |d.entries| then d.entries[id] else []
  }

  function Pad(entries: seq<seq<Value>>, n: nat): (r: seq<seq<Value>>)
    ensures |r| >= n && |r| >= |entries|
    ensures forall i :: 0 <= i < |entries| ==> r[i] == entries[i]
    ensures forall i :: |entries| <= i < |r| ==> r[i] == []
  {
    if |entries| >= n then entries else entries + seq(n - |entries|, _ => [])
  }

  /** One record takes effect. */
  function Apply(d: Dir, r: Rec): Dir {
    var id := r.tag.id;
    if r.tag.kind == TYPE_CREATE then
      var e := Pad(d.entries, id);
      Dir(d.count + 1, e[..id] + [[]] + e[id..])
    else if r.tag.kind == TYPE_DELETE then
      var e := Pad(d.entries, id + 1);
      Dir(d.count - 1, e[..id] + e[id + 1..])
    else if IsAttr(r.tag.kind) then
      var e := Pad(d.entries, id + 1);
      Dir(if Type1(r.tag.kind) == TYPE_NAME && id >= d.count then id + 1 else d.count,
          e[id := e[id] + [ValueOf(r)]])
    else
      d
  }

  /** The directory after a whole log. */
  function Replay(log: seq<Rec>): Dir {
    if log == [] then EMPTY else Apply(Replay(log[..|log| - 1]), log[|log| - 1])
  }

  /** The id an entry had just before a record, or None if that record created it. */
  function Before(r: Rec, id: nat): Option<nat> {
    if r.tag.kind == TYPE_CREATE && r.tag.id <= id then
      if r.tag.id == id then None else Some(id - 1)
    else if r.tag.kind == TYPE_DELETE && r.tag.id <= id then Some(id + 1)
    else Some(id)
  }

  /** How one record changes the values seen under one id. */
  lemma ApplyEntry(d: Dir, r: Rec, id: nat)
    ensures Entry(Apply(d, r), id) ==
            match Before(r, id) {
              case None => []
              case Some(b) =>
                if IsAttr(r.tag.kind) && r.tag.id == id then Entry(d, b) + [ValueOf(r)] else Entry(d, b)
            }
  {
  }

  lemma ReplaySnoc(log: seq<Rec>, r: Rec)
    ensures Replay(log + [r]) == Apply(Replay(log), r)
  {
    assert (log + [r])[..|log|] == log;
  }

  // ---- The attributes of an entry ----

  /**
   * Which writes replace each other: types with the 0x100 bit (user attributes) are told apart exactly,
   * the others (names, structs) share one slot per abstract type.
   */
  datatype Slot = Slot(kind: bv11)

  function Key(kind: bv11): Slot {
    Slot(if kind & 0x100 != 0 then kind else kind & 0x700)
  }

  /** The current attributes of an entry: the last write per key, unless that write was a removal. */
  function Attrs(values: seq<Value>): map<Slot, Value> {
    if values == [] then map[]
    else
      var m := Attrs(values[..|values| - 1]);
      var v := values[|values| - 1];
      if v.Deleted() then m - {Key(v.kind)} else m[Key(v.kind) := v]
  }

  /** The last write to a key, removals included. */
  function LastWrite(values: seq<Value>, key: Slot): Option<Value> {
    if values == [] then None
    else if Key(values[|values| - 1].kind) == key then Some(values[|values| - 1])
    else LastWrite(values[..|values| - 1], key)
  }

  function Live(v: Option<Value>): Option<Value> {
    if v.Some? && !v.value.Deleted() then v else None
  }

  function Find(m: map<Slot, Value>, key: Slot): Option<Value> {
    if key in m then Some(m[key]) else None
  }

  lemma FindAfterWrite(m: map<Slot, Value>, v: Value, key: Slot)
    ensures Find(if v.Deleted() then m - {Key(v.kind)} else m[Key(v.kind) := v], key) ==
            if Key(v.kind) == key then Live(Some(v)) else Find(m, key)
  {
  }

  lemma {:induction false} AttrsIsLastWrite(values: seq<Value>, key: Slot)
    ensures Find(Attrs(values), key) == Live(LastWrite(values, key))
  {
    if values != [] {
      var m, v := Attrs(values[..|values| - 1]), values[|values| - 1];
      AttrsIsLastWrite(values[..|values| - 1], key);
      FindAfterWrite(m, v, key);
    }
  }

  /** Equal last writes on every key mean equal attributes. */
  lemma AttrsEqual(m: map<Slot, Value>, n: map<Slot, Value>)
    requires forall key :: Find(m, key) == Find(n, key)
    ensures m == n
  {
    assert forall key :: key in m ==> Find(m, key) == Find(n, key);
    assert forall key :: key in n ==> Find(m, key) == Find(n, key);
    assert m.Keys == n.Keys;
  }

  /** Do two types agree under a mask? */
  predicate Alike(mask: bv11, kind: bv11, other: bv11) { other & mask == kind & mask }

  /** The newest value whose type matches under a mask, removals included. */
  function Newest(values: seq<Value>, mask: bv11, kind: bv11): Option<Value> {
    if values == [] then None
    else if Alike(mask, kind, values[|values| - 1].kind) then Some(values[|values| - 1])
    else Newest(values[..|values| - 1], mask, kind)
  }

  /** A mask that sees exactly the slot of a type. */
  predicate MaskMatchesKey(mask: bv11, kind: bv11) {
    mask == if kind & 0x100 != 0 then 0x7ff else 0x700
  }

  lemma {:induction false} NewestIsLastWrite(values: seq<Value>, mask: bv11, kind: bv11)
    requires MaskMatchesKey(mask, kind)
    ensures Newest(values, mask, kind) == LastWrite(values, Key(kind))
  {
    if values != [] {
      NewestIsLastWrite(values[..|values| - 1], mask, kind);
      SameSlot(values[|values| - 1].kind, mask, kind);
    }
  }

  lemma SameSlot(a: bv11, mask: bv11, kind: bv11)
    requires MaskMatchesKey(mask, kind)
    ensures Alike(mask, kind, a) <==> Key(a) == Key(kind)
  {
    if kind & 0x100 != 0 {
      SameExactSlot(a, kind);
    } else {
      SameSharedSlot(a, kind);
    }
  }

  lemma SameExactSlot(a: bv11, kind: bv11)
    requires kind & 0x100 != 0
    ensures Alike(0x7ff, kind, a) <==> Key(a) == Key(kind)
  {
    assert (kind & 0x700) & 0x100 != 0;
    assert (a & 0x700) & 0x100 == a & 0x100;
  }

  lemma SameSharedSlot(a: bv11, kind: bv11)
    requires kind & 0x100 == 0
    ensures Alike(0x700, kind, a) <==> Key(a) == Key(kind)
  {
    assert (kind & 0x700) & 0x100 == 0;
    assert (a & 0x700) & 0x100 == a & 0x100;
  }
}
