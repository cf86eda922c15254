/**
 * Finding a name in a metadata pair. lfs_dir_fetchmatch looks for it while it reads the log forward, with no more
 * memory than one tag, and yet ends up with the entry that has the name, or with the place where it belongs.
 */
module Names {
  import opened Arith
  import opened Words
  import opened Tags
  import opened Log
  import opened Cache
  import opened Lookup

  // ---- The order of names ----

  /** lfs_dir_find_match: the first bytes that differ decide, and a name comes before its own beginnings. */
  function NameCmp(disk: seq<Byte>, name: seq<Byte>): Cmp {
    var diff := Min(|name|, |disk|);
    var res := Compare(disk[..diff], name[..diff]);
    if res != Equal then res
    else if |name| != |disk| then (if |name| < |disk| then Less else Greater)
    else Equal
  }

  lemma NameCmpStep(a: seq<Byte>, b: seq<Byte>)
    ensures NameCmp(a, b) ==
            if a == [] then (if b == [] then Equal else Greater)
            else if b == [] then Less
            else if a[0] == b[0] then NameCmp(a[1..], b[1..])
            else if a[0].bits < b[0].bits then Less else Greater
  {
    var n := Min(|b|, |a|);
    if a != [] && b != [] {
      assert a[..n][1..] == a[1..][..n - 1] && b[..n][1..] == b[1..][..n - 1];
      Differ(a[0], b[0]);
    }
  }

  lemma Differ(a: Byte, b: Byte)
    ensures a == b || a.bits < b.bits || a.bits > b.bits
    ensures !(a.bits < b.bits && a.bits > b.bits)
  {
  }

  lemma BytesOrdered(a: Byte, b: Byte, c: Byte)
    ensures a.bits < b.bits && b.bits < c.bits ==> a.bits < c.bits
  {
  }

  /** Names are totally ordered. */
  lemma {:induction false} NamesAreOrdered(a: seq<Byte>, b: seq<Byte>)
    ensures NameCmp(a, b) == Equal <==> a == b
    ensures NameCmp(a, b) == Less <==> NameCmp(b, a) == Greater
  {
    hide NameCmp;
    NameCmpStep(a, b);
    NameCmpStep(b, a);
    if a != [] && b != [] {
      Differ(a[0], b[0]);
      NamesAreOrdered(a[1..], b[1..]);
      assert a == [a[0]] + a[1..] && b == [b[0]] + b[1..];
    }
  }

  lemma {:induction false} OrderIsTransitive(a: seq<Byte>, b: seq<Byte>, c: seq<Byte>)
    requires NameCmp(a, b) == Less && NameCmp(b, c) == Less
    ensures NameCmp(a, c) == Less
  {
    hide NameCmp;
    NameCmpStep(a, b);
    NameCmpStep(b, c);
    NameCmpStep(a, c);
    if a != [] && b != [] && c != [] {
      Differ(a[0], b[0]);
      Differ(b[0], c[0]);
      BytesOrdered(a[0], b[0], c[0]);
      if a[0] == b[0] && b[0] == c[0] {
        OrderIsTransitive(a[1..], b[1..], c[1..]);
      }
    }
  }

  // ---- Directories in order ----

  /** The name tags that a search looks at; the name of a superblock entry is not one of them. */
  predicate Findable(kind: bv11) { kind & 0x780 == 0 }

  /** What an entry is named. */
  function NameAt(d: Dir, id: nat): Option<Value> { Find(Attrs(Entry(d, id)), Slot(TYPE_NAME)) }

  /** An entry comes before a name; a superblock entry before all. */
  predicate Under(v: Value, name: seq<Byte>) { Findable(v.kind) ==> NameCmp(v.data, name) == Less }

  predicate Over(v: Value, name: seq<Byte>) { Findable(v.kind) && NameCmp(v.data, name) == Greater }

  /** An entry has a name. */
  predicate Has(d: Dir, id: nat, name: seq<Byte>) {
    NameAt(d, id).Some? && Findable(NameAt(d, id).value.kind) && NameAt(d, id).value.data == name
  }

  /** A tag is that of the name of an entry. */
  predicate Matches(d: Dir, t: Tag, name: seq<Byte>) {
    Has(d, t.id, name) && NameAt(d, t.id).value.kind == t.kind && NameAt(d, t.id).value.size == t.size
  }

  /** The place of a name that is not there: the entries below an id come before the name, the others behind it. */
  ghost predicate Belongs(d: Dir, place: nat, name: seq<Byte>) {
    forall id: nat | NameAt(d, id).Some? ::
      if id < place then Under(NameAt(d, id).value, name) else Over(NameAt(d, id).value, name)
  }

  /** Which of two entries comes first. */
  predicate Precedes(v: Value, w: Value) { Findable(w.kind) && Under(v, w.data) }

  /** The entries are in the order of their names. */
  ghost predicate Sorted(d: Dir) {
    forall i: nat, j: nat | i < j && NameAt(d, i).Some? && NameAt(d, j).Some? ::
      Precedes(NameAt(d, i).value, NameAt(d, j).value)
  }

  ghost predicate EveryNamed(d: Dir) { forall id: nat | id < d.count :: NameAt(d, id).Some? }

  /** In order, and with no names beyond the count, which is one that ids can have. */
  ghost predicate Orderly(d: Dir) {
    0 <= d.count < NO_ID && Sorted(d) && forall id: nat | NameAt(d, id).Some? :: id < d.count
  }

  predicate HadDelete(log: seq<Rec>) { exists i :: 0 <= i < |log| && log[i].tag.kind == TYPE_DELETE }

  /**
   * A tag as lfs_dir_commit and lfs_dir_compact write it: entries are named once, where their name belongs; ids are
   * created without gaps; nothing is deleted while an entry has no name; and no name is given to a new id without
   * creating it once there have been deletes, so that only compactions do.
   */
  ghost predicate InOrder(d: Dir, deleted: bool, r: Rec) {
    && OnDisk(r) && r.tag.Fits() && Orderly(Apply(d, r))
    && (r.tag.kind == TYPE_CREATE ==> r.tag.id <= d.count)
    && (r.tag.kind == TYPE_DELETE ==> r.tag.id < d.count && r.tag.size == 0 && EveryNamed(d))
    && (Type1(r.tag.kind) == TYPE_NAME ==>
          r.tag.size != DELETED_SIZE && NameAt(d, r.tag.id) == None && (r.tag.id < d.count || !deleted))
  }

  ghost predicate Tidy(log: seq<Rec>)
    decreases |log|
  {
    log == [] ||
    var front := log[..|log| - 1];
    Tidy(front) && InOrder(Replay(front), HadDelete(front), log[|log| - 1])
  }

  /** How a tag changes the names. */
  lemma NameAfter(d: Dir, r: Rec, id: nat)
    requires OnDisk(r) && (Type1(r.tag.kind) == TYPE_NAME ==> r.tag.size != DELETED_SIZE)
    ensures NameAt(Apply(d, r), id) ==
            match Before(r, id) {
              case None => None
              case Some(b) =>
                if Type1(r.tag.kind) == TYPE_NAME && r.tag.id == id then Some(ValueOf(r)) else NameAt(d, b)
            }
  {
    hide Apply, Entry, Key, IsAttr;
    ApplyEntry(d, r, id);
    NameKinds(r.tag.kind);
    var b := Before(r, id);
    if b.Some? && IsAttr(r.tag.kind) && r.tag.id == id {
      var old_ := Entry(d, b.value);
      assert (old_ + [ValueOf(r)])[..|old_|] == old_;
    }
  }

  lemma NameKinds(kind: bv11)
    ensures Type1(kind) == TYPE_NAME ==> Key(kind) == Slot(TYPE_NAME) && IsAttr(kind)
    ensures IsAttr(kind) && Type1(kind) != TYPE_NAME ==> Key(kind) != Slot(TYPE_NAME)
    ensures Findable(kind) ==> Type1(kind) == TYPE_NAME
  {
  }

  // ---- The search ----

  /** An id moved by a splice, in 32-bit arithmetic: the chunk is a signed byte. */
  function Moved(w: Word, kind: bv11): Word {
    var chunk := (kind & 0xff) as bv32;
    Word(w.bits + ((if chunk < 0x80 then chunk else chunk | 0xffff_ff00) << 10))
  }

  /**
   * tempbesttag after one more tag: a match, or, with its valid bit set, the tag of the first entry behind the place of
   * the name; BLANK, which is -1, if there is neither.
   */
  function BestAfter(best: Word, name: seq<Byte>, r: Rec): Word
    requires r.tag.Fits()
  {
    var t := r.tag;
    if Type1(t.kind) == TYPE_SPLICE then
      if t == Tag(TYPE_DELETE, Unpack(best).id, 0) then Marked(best)
      else if best != BLANK && t.id <= Unpack(best).id then Moved(best, t.kind)
      else best
    else if Findable(t.kind) then
      var res := NameCmp(r.data, name);
      if res == Equal then Pack(t)
      else if t.kind == Unpack(best).kind && t.id == Unpack(best).id then BLANK
      else if res == Greater && t.id <= Unpack(best).id then Marked(Pack(t))
      else best
    else best
  }

  predicate AllFit(log: seq<Rec>) { forall i | 0 <= i < |log| :: log[i].tag.Fits() }

  /** tempbesttag after a whole log. */
  function BestOf(log: seq<Rec>, name: seq<Byte>): Word
    requires AllFit(log)
  {
    if log == [] then BLANK else BestAfter(BestOf(log[..|log| - 1], name), name, log[|log| - 1])
  }

  lemma MovedUp(w: Word)
    requires Unpack(w).id < NO_ID
    ensures Unpack(Moved(w, TYPE_CREATE)) == Unpack(w).(id := Unpack(w).id + 1)
    ensures IsValid(Moved(w, TYPE_CREATE)) == IsValid(w)
  {
    var v := Moved(w, TYPE_CREATE);
    UpBits(w);
    IdUp(IdBits(w));
  }

  lemma UpBits(w: Word)
    requires IdBits(w) != 0x3ff
    ensures var v := Moved(w, TYPE_CREATE);
            KindBits(v) == KindBits(w) && IdBits(v) == IdBits(w) + 1 && SizeBits(v) == SizeBits(w)
              && IsValid(v) == IsValid(w)
  {
  }

  lemma IdUp(b: bv10)
    requires b != 0x3ff
    ensures (b + 1) as nat == b as nat + 1
  {
  }

  lemma MovedDown(w: Word)
    requires Unpack(w).id > 0
    ensures Unpack(Moved(w, TYPE_DELETE)) == Unpack(w).(id := Unpack(w).id - 1)
    ensures IsValid(Moved(w, TYPE_DELETE)) == IsValid(w)
  {
    DownBits(w);
    IdDown(IdBits(w));
  }

  lemma DownBits(w: Word)
    requires IdBits(w) != 0
    ensures var v := Moved(w, TYPE_DELETE);
            KindBits(v) == KindBits(w) && IdBits(v) == IdBits(w) - 1 && SizeBits(v) == SizeBits(w)
              && IsValid(v) == IsValid(w)
  {
  }

  lemma IdDown(b: bv10)
    requires b != 0
    ensures (b - 1) as nat == b as nat - 1
  {
  }

  lemma MarkedWord(w: Word)
    ensures Unpack(Marked(w)) == Unpack(w) && !IsValid(Marked(w))
  {
    hide KindBits, IdBits, SizeBits;
    MaskedMarked(w);
    FieldsIgnoreValidBit(w, Marked(w));
  }

  lemma BlankFields()
    ensures Unpack(BLANK).id == NO_ID && !IsValid(BLANK)
  {
  }

  // ---- What the search keeps ----

  /** The best tag is a match, or the place of the name: every entry before it comes before the name. */
  ghost predicate Placed(d: Dir, deleted: bool, best: Word, name: seq<Byte>) {
    var t := Unpack(best);
    if IsValid(best) then Matches(d, t, name)
    else
      && (forall id: nat | id < t.id && NameAt(d, id).Some? :: Under(NameAt(d, id).value, name))
      && (best == BLANK || (NameAt(d, t.id).Some? && Over(NameAt(d, t.id).value, name)) || (deleted && t.id == d.count))
  }

  /** Where the entries of a directory come from. */
  ghost predicate Shifted(d: Dir, e: Dir, r: Rec) {
    forall id: nat :: NameAt(e, id) == match Before(r, id) { case None => None case Some(b) => NameAt(d, b) }
  }

  lemma ShiftedBy(d: Dir, r: Rec)
    requires OnDisk(r) && Type1(r.tag.kind) != TYPE_NAME
    ensures Shifted(d, Apply(d, r), r)
  {
    hide Apply, NameAt, Before;
    forall id: nat { NameAfter(d, r, id); }
  }

  /** A match or a place is never beyond the entries. */
  lemma PlacedInside(d: Dir, deleted: bool, best: Word, name: seq<Byte>)
    requires Orderly(d) && Placed(d, deleted, best, name)
    ensures best != BLANK ==> Unpack(best).id <= d.count
  {
    hide NameAt, Unpack, Under, Over, Sorted;
  }

  lemma CreateKeeps(d: Dir, deleted: bool, best: Word, name: seq<Byte>, r: Rec)
    requires Orderly(d) && Placed(d, deleted, best, name) && InOrder(d, deleted, r) && r.tag.kind == TYPE_CREATE
    ensures Placed(Apply(d, r), deleted, BestAfter(best, name, r), name)
  {
    hide NameAt, Unpack, Under, Over, Precedes, Moved, Marked, Sorted, NameCmp;
    var e, k, p := Apply(d, r), r.tag.id, Unpack(best).id;
    ShiftedBy(d, r);
    PlacedInside(d, deleted, best, name);
    BlankFields();
    CreateIsSplice();
    if best != BLANK && k <= p {
      MovedUp(best);
      assert Before(r, p + 1) == Some(p);
    }
    assert forall id: nat | id < k :: Before(r, id) == Some(id);
    assert forall id: nat | id > k :: Before(r, id) == Some(id - 1);
    CountMoves(d, r);
  }

  lemma CreateIsSplice()
    ensures Type1(TYPE_CREATE) == Type1(TYPE_DELETE) == TYPE_SPLICE != TYPE_NAME && TYPE_CREATE != TYPE_DELETE
  {
  }

  lemma CountMoves(d: Dir, r: Rec)
    ensures r.tag.kind == TYPE_CREATE ==> Apply(d, r).count == d.count + 1
    ensures r.tag.kind == TYPE_DELETE ==> Apply(d, r).count == d.count - 1
  {
    CreateIsSplice();
  }

  lemma DeleteKeeps(d: Dir, deleted: bool, best: Word, name: seq<Byte>, r: Rec)
    requires Orderly(d) && Placed(d, deleted, best, name) && InOrder(d, deleted, r) && r.tag.kind == TYPE_DELETE
    ensures Placed(Apply(d, r), true, BestAfter(best, name, r), name)
  {
    hide NameAt, Unpack, Under, Over, Precedes, Moved, Marked, Sorted, NameCmp;
    var e, k, p := Apply(d, r), r.tag.id, Unpack(best).id;
    ShiftedBy(d, r);
    PlacedInside(d, deleted, best, name);
    BlankFields();
    CreateIsSplice();
    CountMoves(d, r);
    assert forall id: nat | id < k :: Before(r, id) == Some(id);
    assert forall id: nat | id >= k :: Before(r, id) == Some(id + 1);
    if r.tag == Tag(TYPE_DELETE, p, 0) {
      MarkedWord(best);
      BehindMatch(d, deleted, best, name);
    } else if best != BLANK && k <= p {
      MovedDown(best);
    }
  }

  /** The neighbours of the best tag: what comes before its place, and what comes behind a match or a place. */
  lemma BehindMatch(d: Dir, deleted: bool, best: Word, name: seq<Byte>)
    requires Orderly(d) && Placed(d, deleted, best, name)
    ensures var p := Unpack(best).id;
            && (forall id: nat | id < p && NameAt(d, id).Some? :: Under(NameAt(d, id).value, name))
            && (forall id: nat | id > p && NameAt(d, id).Some? :: Over(NameAt(d, id).value, name))
  {
    hide NameAt, Unpack, NameCmp;
    var p := Unpack(best).id;
    forall id: nat | id != p && NameAt(d, id).Some?
      ensures id < p ==> Under(NameAt(d, id).value, name)
      ensures id > p ==> Over(NameAt(d, id).value, name)
    {
      if id < p && NameAt(d, p).Some? {
        assert Precedes(NameAt(d, id).value, NameAt(d, p).value);
        Between(NameAt(d, id).value, NameAt(d, p).value, name);
      } else if id > p && NameAt(d, p).Some? {
        assert Precedes(NameAt(d, p).value, NameAt(d, id).value);
        Between(NameAt(d, p).value, NameAt(d, id).value, name);
      }
      BlankFields();
    }
  }

  lemma Between(v: Value, w: Value, name: seq<Byte>)
    requires Precedes(v, w)
    ensures Findable(w.kind) && w.data == name ==> Under(v, name)
    ensures Findable(v.kind) && (v.data == name || Over(v, name)) ==> Over(w, name)
    ensures !Over(w, name) ==> Under(v, name)
  {
    hide NameCmp, Findable;
    NamesAreOrdered(v.data, w.data);
    NamesAreOrdered(v.data, name);
    NamesAreOrdered(w.data, name);
    if Findable(v.kind) && NameCmp(v.data, name) == Greater {
      NamesAreOrdered(name, v.data);
      OrderIsTransitive(name, v.data, w.data);
      NamesAreOrdered(name, w.data);
    }
    if NameCmp(w.data, name) == Less && Findable(v.kind) {
      OrderIsTransitive(v.data, w.data, name);
    }
  }

  lemma NamedAfter(d: Dir, r: Rec)
    requires OnDisk(r) && Type1(r.tag.kind) == TYPE_NAME && r.tag.size != DELETED_SIZE
    ensures forall id: nat :: NameAt(Apply(d, r), id) == if id == r.tag.id then Some(ValueOf(r)) else NameAt(d, id)
    ensures Apply(d, r).count == if r.tag.id >= d.count then r.tag.id + 1 else d.count
  {
    hide NameAt, Before, Entry, Pad;
    NameKinds(r.tag.kind);
    CreateIsSplice();
    NameNoSplice(r);
    forall id: nat { NameAfter(d, r, id); }
  }

  lemma NameNoSplice(r: Rec)
    requires Type1(r.tag.kind) == TYPE_NAME
    ensures forall id: nat :: Before(r, id) == Some(id)
    ensures r.tag.kind != TYPE_CREATE && r.tag.kind != TYPE_DELETE
  {
    CreateIsSplice();
  }

  lemma NameKeeps(d: Dir, deleted: bool, best: Word, name: seq<Byte>, r: Rec)
    requires Orderly(d) && Placed(d, deleted, best, name) && InOrder(d, deleted, r) && Type1(r.tag.kind) == TYPE_NAME
    ensures Placed(Apply(d, r), deleted, BestAfter(best, name, r), name)
  {
    hide NameAt, Unpack, Moved, Marked, NameCmp, Apply, Type1, Findable, Pack, IsValid, OnDisk;
    var e, p := Apply(d, r), Unpack(best).id;
    NamedAfter(d, r);
    NamesAreOrdered(r.data, name);
    BlankFields();
    CreateIsSplice();
    NameKinds(r.tag.kind);
    UnpackPack(r.tag);
    MarkedWord(Pack(r.tag));
    BehindMatch(d, deleted, best, name);
    PlacedInside(d, deleted, best, name);
    assert NameAt(e, r.tag.id) == Some(ValueOf(r));
    var k, v := r.tag.id, ValueOf(r);
    if Findable(r.tag.kind) && NameCmp(r.data, name) == Greater && k <= p {
      forall id: nat | id < k && NameAt(e, id).Some? ensures Under(NameAt(e, id).value, name) {
        assert NameAt(d, id) == NameAt(e, id);
      }
    }
  }

  lemma OtherKeeps(d: Dir, deleted: bool, best: Word, name: seq<Byte>, r: Rec)
    requires Orderly(d) && Placed(d, deleted, best, name) && InOrder(d, deleted, r)
    requires Type1(r.tag.kind) != TYPE_NAME && r.tag.kind != TYPE_CREATE && r.tag.kind != TYPE_DELETE
    ensures Placed(Apply(d, r), deleted, BestAfter(best, name, r), name)
  {
    hide NameAt, Unpack, Moved, Marked, NameCmp, Under, Over, Sorted, IsValid;
    ShiftedBy(d, r);
    NameKinds(r.tag.kind);
    assert forall id: nat :: Before(r, id) == Some(id);
  }

  lemma HadDeleteSnoc(log: seq<Rec>, r: Rec)
    ensures HadDelete(log + [r]) == (HadDelete(log) || r.tag.kind == TYPE_DELETE)
  {
    var all := log + [r];
    if r.tag.kind == TYPE_DELETE {
      assert all[|log|].tag.kind == TYPE_DELETE;
    }
    if HadDelete(log) {
      var i :| 0 <= i < |log| && log[i].tag.kind == TYPE_DELETE;
      assert all[i].tag.kind == TYPE_DELETE;
    }
  }

  /** The search keeps track of the name throughout a tidy log. */
  lemma {:induction false} SearchKeepsPlace(log: seq<Rec>, name: seq<Byte>)
    requires Tidy(log)
    ensures AllFit(log) && AllOnDisk(log) && Orderly(Replay(log))
    ensures Placed(Replay(log), HadDelete(log), BestOf(log, name), name)
  {
    hide Placed, BestAfter, Apply, Orderly, OnDisk;
    if log == [] {
      NothingPlaced(name);
    } else {
      var front, r := log[..|log| - 1], log[|log| - 1];
      SearchKeepsPlace(front, name);
      var d, best := Replay(front), BestOf(front, name);
      assert log == front + [r];
      HadDeleteSnoc(front, r);
      CreateIsSplice();
      if Type1(r.tag.kind) == TYPE_NAME {
        NameNoSplice(r);
        NameKeeps(d, HadDelete(front), best, name, r);
      } else if r.tag.kind == TYPE_CREATE {
        CreateKeeps(d, HadDelete(front), best, name, r);
      } else if r.tag.kind == TYPE_DELETE {
        DeleteKeeps(d, HadDelete(front), best, name, r);
      } else {
        OtherKeeps(d, HadDelete(front), best, name, r);
      }
    }
  }

  lemma NothingPlaced(name: seq<Byte>)
    ensures AllFit([]) && Orderly(EMPTY) && Placed(EMPTY, false, BestOf([], name), name)
  {
    BlankFields();
  }

  /**
   * What a search finds: a match exactly if an entry has the name, and then that entry; otherwise the place where the
   * name belongs, which is the count if all entries come before it.
   */
  lemma FindExactly(log: seq<Rec>, name: seq<Byte>)
    requires Tidy(log) && EveryNamed(Replay(log))
    ensures AllFit(log) && Replay(log).count >= 0
    ensures var d, t := Replay(log), Unpack(BestOf(log, name));
            var place := Min(t.id, d.count);
            && (IsValid(BestOf(log, name)) <==> exists id: nat :: Has(d, id, name))
            && (IsValid(BestOf(log, name)) ==> Matches(d, t, name))
            && (!IsValid(BestOf(log, name)) ==> Belongs(d, place, name))
  {
    hide NameAt, Unpack, NameCmp, BestOf, Replay, Findable, Tidy, OnDisk, IsValid;
    SearchKeepsPlace(log, name);
    var d, best := Replay(log), BestOf(log, name);
    BehindMatch(d, HadDelete(log), best, name);
    PlacedInside(d, HadDelete(log), best, name);
    BlankFields();
    NamesAreOrdered(name, name);
  }

  // ---- The answer ----

  /** besttag once the entry of a pending move counts as deleted. */
  function Synthetic(best: Word, hidden: Option<nat>): Word {
    match hidden
    case None => best
    case Some(h) =>
      if h == Unpack(best).id then Marked(best)
      else if best != BLANK && h < Unpack(best).id then Moved(best, TYPE_DELETE)
      else best
  }

  /** A tag; or LFS_ERR_NOENT and the id the name would get; or 0, which sends the search on to the next pair. */
  datatype Answer = Hit(tag: Tag) | Missing(id: nat) | Onward(id: nat)

  function AnswerOf(best: Word, count: nat): Answer {
    if IsValid(best) then Hit(Unpack(best))
    else if Unpack(best).id < count then Missing(Unpack(best).id)
    else Onward(count)
  }

  /** What lfs_dir_fetchmatch answers about a name. */
  function Search(log: seq<Rec>, count: nat, hidden: Option<nat>, name: seq<Byte>): Answer
    requires AllFit(log)
  {
    AnswerOf(Synthetic(BestOf(log, name), hidden), count)
  }

  /** Every entry comes before the name. */
  ghost predicate AllBelow(d: Dir, name: seq<Byte>) {
    forall id: nat | NameAt(d, id).Some? :: Under(NameAt(d, id).value, name)
  }

  /** A log that has never had a name at or behind this one. */
  predicate NeverReached(log: seq<Rec>, name: seq<Byte>) {
    forall i | 0 <= i < |log| :: Findable(log[i].tag.kind) ==> NameCmp(log[i].data, name) == Less
  }

  lemma NotBlank(w: Word)
    requires Unpack(w).id < NO_ID
    ensures w != BLANK
  {
    BlankFields();
  }

  lemma SpliceBlank(d: Dir, deleted: bool, best: Word, name: seq<Byte>, r: Rec)
    requires Orderly(d) && Placed(d, deleted, best, name) && InOrder(d, deleted, r) && Type1(r.tag.kind) == TYPE_SPLICE
    ensures BestAfter(best, name, r) == BLANK <==> best == BLANK
  {
    hide NameAt, Unpack, Moved, Marked, NameCmp, Under, Over, Sorted, IsValid, Apply;
    PlacedInside(d, deleted, best, name);
    BlankFields();
    CreateIsSplice();
    CountMoves(d, r);
    MarkedWord(best);
    var p := Unpack(best).id;
    if best != BLANK && r.tag.id <= p {
      NotBlank(Marked(best));
      if r.tag.kind == TYPE_CREATE {
        MovedUp(best);
        NotBlank(Moved(best, TYPE_CREATE));
      } else if p > 0 {
        MovedDown(best);
        NotBlank(Moved(best, TYPE_DELETE));
      }
    }
  }

  lemma NameBlank(d: Dir, deleted: bool, best: Word, name: seq<Byte>, r: Rec)
    requires Orderly(d) && Placed(d, deleted, best, name) && InOrder(d, deleted, r) && Findable(r.tag.kind)
    ensures BestAfter(best, name, r) == BLANK <==> best == BLANK && NameCmp(r.data, name) == Less
  {
    hide Unpack, Marked, NameCmp, Under, Over, Sorted, IsValid, Apply, Pack, NameAt, Findable, Type1, OnDisk;
    NameKinds(r.tag.kind);
    NamedAfter(d, r);
    PlacedInside(d, deleted, best, name);
    BlankFields();
    CreateIsSplice();
    UnpackPack(r.tag);
    MarkedWord(Pack(r.tag));
    assert NameAt(Apply(d, r), r.tag.id).Some?;
    NotBlank(Pack(r.tag));
    NotBlank(Marked(Pack(r.tag)));
  }

  /** The best tag stays BLANK exactly as long as only names before this one come by. */
  lemma {:induction false} BlankExactly(log: seq<Rec>, name: seq<Byte>)
    requires Tidy(log)
    ensures AllFit(log) && (BestOf(log, name) == BLANK <==> NeverReached(log, name))
  {
    hide NameCmp, Orderly, OnDisk, Moved, Marked, Placed, InOrder;
    SearchKeepsPlace(log, name);
    if log != [] {
      var front, r := log[..|log| - 1], log[|log| - 1];
      BlankExactly(front, name);
      SearchKeepsPlace(front, name);
      assert log == front + [r];
      ReachedSnoc(front, r, name);
      NameKinds(r.tag.kind);
      CreateIsSplice();
      if Type1(r.tag.kind) == TYPE_SPLICE {
        SpliceBlank(Replay(front), HadDelete(front), BestOf(front, name), name, r);
      } else if Findable(r.tag.kind) {
        NameBlank(Replay(front), HadDelete(front), BestOf(front, name), name, r);
      }
    }
  }

  lemma ReachedSnoc(log: seq<Rec>, r: Rec, name: seq<Byte>)
    ensures NeverReached(log + [r], name) <==>
            NeverReached(log, name) && (Findable(r.tag.kind) ==> NameCmp(r.data, name) == Less)
  {
    hide NameCmp, Findable;
    var all := log + [r];
    assert all[|log|] == r;
    if NeverReached(all, name) {
      forall i | 0 <= i < |log| ensures Findable(log[i].tag.kind) ==> NameCmp(log[i].data, name) == Less {
        assert all[i] == log[i];
      }
    }
  }

  /** The directory that shows while a move is pending. */
  lemma ShownNames(log: seq<Rec>, h: nat)
    ensures forall id: nat :: NameAt(Replay(Visible(log, Some(h))), id) ==
                              NameAt(Replay(log), if id < h then id else id + 1)
    ensures Replay(Visible(log, Some(h))).count == Replay(log).count - 1
  {
    hide NameAt, Apply, Replay;
    var r := Rec(Tag(TYPE_DELETE, h, 0), []);
    ReplaySnoc(log, r);
    CreateIsSplice();
    ShiftedBy(Replay(log), r);
    CountMoves(Replay(log), r);
    assert forall id: nat :: Before(r, id) == Some(if id < h then id else id + 1);
  }

  /**
   * An answer is right about a directory: the entry with the name, or its place, or that all entries come before it.
   */
  ghost predicate Right(e: Dir, a: Answer, name: seq<Byte>) {
    match a
    case Hit(t) => Matches(e, t, name)
    case Missing(p) => Belongs(e, p, name)
    case Onward(_) => AllBelow(e, name)
  }

  lemma SearchPlain(log: seq<Rec>, name: seq<Byte>)
    requires Tidy(log) && EveryNamed(Replay(log))
    ensures AllFit(log) && Replay(log).count >= 0
    ensures Right(Replay(log), Search(log, Replay(log).count, None, name), name)
    ensures Search(log, Replay(log).count, None, name).Onward? <==> AllBelow(Replay(log), name)
  {
    hide NameAt, Unpack, NameCmp, BestOf, Replay, Findable, Tidy, OnDisk, IsValid;
    FindExactly(log, name);
    SearchKeepsPlace(log, name);
    OverIsNotUnder(name);
  }

  lemma OverIsNotUnder(name: seq<Byte>)
    ensures forall v :: Over(v, name) ==> !Under(v, name)
    ensures forall v: Value :: Findable(v.kind) && v.data == name ==> !Under(v, name) && !Over(v, name)
  {
    hide NameCmp;
    NamesAreOrdered(name, name);
  }

  lemma SearchHidden(log: seq<Rec>, h: nat, name: seq<Byte>)
    requires Tidy(log) && EveryNamed(Replay(log)) && h < Replay(log).count
    ensures AllFit(log)
    ensures Right(Replay(Visible(log, Some(h))), Search(log, Replay(log).count, Some(h), name), name)
    ensures Search(log, Replay(log).count, Some(h), name).Onward? <==> BestOf(log, name) == BLANK
  {
    hide NameAt, Unpack, NameCmp, BestOf, Replay, Findable, Tidy, OnDisk, IsValid, Moved, Marked, Visible;
    FindExactly(log, name);
    SearchKeepsPlace(log, name);
    var d, best := Replay(log), BestOf(log, name);
    BehindMatch(d, HadDelete(log), best, name);
    PlacedInside(d, HadDelete(log), best, name);
    ShownNames(log, h);
    MarkedWord(best);
    BlankFields();
    if h < Unpack(best).id {
      MovedDown(best);
    }
  }

  /**
   * What a search answers is always right about the entries that show. It goes on to the next pair exactly if they all
   * come before the name and, while an entry is hidden here, no name ever got as far as this one.
   */
  lemma SearchExactly(log: seq<Rec>, hidden: Option<nat>, name: seq<Byte>)
    requires Tidy(log) && EveryNamed(Replay(log)) && (hidden.Some? ==> hidden.value < Replay(log).count)
    ensures AllFit(log) && Replay(log).count >= 0
    ensures var e, a := Replay(Visible(log, hidden)), Search(log, Replay(log).count, hidden, name);
            && Right(e, a, name)
            && (a.Hit? <==> exists id: nat :: Has(e, id, name))
            && (a.Onward? <==> AllBelow(e, name) && (hidden == None || NeverReached(log, name)))
  {
    hide NameAt, NameCmp, BestOf, Replay, Findable, Tidy, OnDisk, Search, EveryNamed, AllBelow, Has;
    SearchKeepsPlace(log, name);
    if hidden == None {
      SearchPlain(log, name);
      assert Visible(log, hidden) == log;
    } else {
      SearchHidden(log, hidden.value, name);
      BlankExactly(log, name);
    }
    var e, a := Replay(Visible(log, hidden)), Search(log, Replay(log).count, hidden, name);
    if id: nat :| Has(e, id, name) {
      OnlyHit(e, a, name, id);
    }
    if a.Onward? {
      assert AllBelow(e, name);
    }
  }

  lemma OnlyHit(e: Dir, a: Answer, name: seq<Byte>, id: nat)
    requires Right(e, a, name) && Has(e, id, name)
    ensures a.Hit?
  {
    hide NameAt, NameCmp;
    NamesAreOrdered(name, name);
  }
}
