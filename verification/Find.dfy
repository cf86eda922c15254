/**
 * lfs_dir_find in one directory, which may be a list of several metadata pairs: what it finds, and where a new name
 * goes.
 */
module Find {
  import opened Arith
  import opened Words
  import opened Tags
  import opened Log
  import opened Fetch
  import opened Switch
  import opened Scanner
  import opened Lookup
  import opened GlobalState
  import opened Moves
  import opened Names
  import opened Order

  // ---- Directories of several pairs ----

  /** One pair of a directory, and the entry in it that a pending move hides. */
  datatype Part = Part(log: seq<Rec>, hidden: Option<nat>)

  /** The entries of a pair as they are stored, and as they show. */
  function StoredDir(p: Part): Dir { Replay(p.log) }

  function ShownDir(p: Part): Dir { Replay(Visible(p.log, p.hidden)) }

  ghost predicate PartOk(p: Part) {
    Tidy(p.log) && EveryNamed(StoredDir(p)) && (p.hidden.Some? ==> p.hidden.value < StoredDir(p).count)
  }

  /** The entries of one pair come before those of another. */
  ghost predicate AllBefore(p: Part, q: Part) {
    forall a: nat, b: nat | NameAt(StoredDir(p), a).Some? && NameAt(StoredDir(q), b).Some? ::
      Precedes(NameAt(StoredDir(p), a).value, NameAt(StoredDir(q), b).value)
  }

  /** A directory: pairs in order, and the names in order throughout. */
  ghost predicate DirectoryOk(parts: seq<Part>) {
    && parts != [] && (forall i | 0 <= i < |parts| :: PartOk(parts[i]))
    && forall i, j | 0 <= i < j < |parts| :: AllBefore(parts[i], parts[j])
  }

  predicate AllPartsFit(parts: seq<Part>) { forall i | 0 <= i < |parts| :: AllFit(parts[i].log) }

  /** An entry, or LFS_ERR_NOENT and the place for a new one. */
  datatype Where = At(k: nat, tag: Tag) | Nowhere(k: nat, id: nat)

  function PartAnswer(p: Part, name: seq<Byte>): Answer
    requires AllFit(p.log)
  {
    Search(p.log, Count(p.log), p.hidden, name)
  }

  /** What lfs_dir_find answers about a name, from some pair of a directory on. */
  function FindFrom(parts: seq<Part>, k: nat, name: seq<Byte>): Where
    requires k < |parts| && AllPartsFit(parts)
    decreases |parts| - k
  {
    match PartAnswer(parts[k], name)
    case Hit(t) => At(k, t)
    case Missing(id) => Nowhere(k, id)
    case Onward(id) => if k + 1 < |parts| then FindFrom(parts, k + 1, name) else Nowhere(k, id)
  }

  lemma {:induction false} TidyCounts(log: seq<Rec>)
    requires Tidy(log)
    ensures CountsFit(log) && AllOnDisk(log) && Count(log) == Replay(log).count
  {
    hide OnDisk, Count, Placed, Apply;
    forall i | 0 <= i <= |log| ensures 0 <= Replay(log[..i]).count < 0x1_0000 {
      TidyPrefix(log, i);
      SearchKeepsPlace(log[..i], []);
    }
    SearchKeepsPlace(log, []);
    CountIsReplay(log);
  }

  lemma {:induction false} TidyPrefix(log: seq<Rec>, i: nat)
    requires Tidy(log) && i <= |log|
    ensures Tidy(log[..i])
    decreases |log|
  {
    if i == |log| {
      assert log[..i] == log;
    } else {
      TidyPrefix(log[..|log| - 1], i);
      assert log[..|log| - 1][..i] == log[..i];
    }
  }

  /** What one pair answers, if it is in order. */
  lemma PartSearched(p: Part, name: seq<Byte>)
    requires PartOk(p)
    ensures AllFit(p.log) && StoredDir(p).count >= 0
    ensures var a := PartAnswer(p, name);
            && Right(ShownDir(p), a, name) && (a.Hit? <==> exists id: nat :: Has(ShownDir(p), id, name))
            && (a.Onward? <==> AllBelow(ShownDir(p), name) && (p.hidden == None || NeverReached(p.log, name)))
            && (a.Onward? ==> a.id == StoredDir(p).count) && (a.Missing? ==> a.id < StoredDir(p).count)
  {
    hide Right, Has, AllBelow, NeverReached, BestOf;
    TidyCounts(p.log);
    SearchExactly(p.log, p.hidden, name);
  }

  /** What shows of a pair comes from what it stores. */
  lemma ShownIsStored(p: Part, id: nat)
    requires PartOk(p) && NameAt(ShownDir(p), id).Some?
    ensures exists k: nat :: NameAt(StoredDir(p), k) == NameAt(ShownDir(p), id)
  {
    hide NameAt, Replay, Tidy;
    match p.hidden
    case None =>
    case Some(h) =>
      ShownNames(p.log, h);
      assert NameAt(StoredDir(p), if id < h then id else id + 1) == NameAt(ShownDir(p), id);
  }

  /** Pairs before one that has the name show only names before it. */
  lemma EarlierUnder(p: Part, q: Part, name: seq<Byte>, id: nat)
    requires PartOk(p) && PartOk(q) && AllBefore(p, q) && Has(ShownDir(q), id, name)
    ensures AllBelow(ShownDir(p), name)
  {
    hide NameAt, StoredDir, ShownDir, NameCmp, PartOk, Findable;
    ShownIsStored(q, id);
    var b: nat :| NameAt(StoredDir(q), b) == NameAt(ShownDir(q), id);
    forall a: nat | NameAt(ShownDir(p), a).Some? ensures Under(NameAt(ShownDir(p), a).value, name) {
      ShownIsStored(p, a);
      var c: nat :| NameAt(StoredDir(p), c) == NameAt(ShownDir(p), a);
      assert Precedes(NameAt(StoredDir(p), c).value, NameAt(StoredDir(q), b).value);
    }
  }

  /** Pairs that let the search go on although an entry in them is hidden, if there is one. */
  ghost predicate LetsPass(parts: seq<Part>, from: nat, k: nat, name: seq<Byte>)
    requires k <= |parts|
  {
    forall j | from <= j < k :: parts[j].hidden == None || NeverReached(parts[j].log, name)
  }

  /** What the search finds has the name. */
  lemma {:induction false} FoundHas(parts: seq<Part>, from: nat, name: seq<Byte>)
    requires DirectoryOk(parts) && from < |parts|
    ensures AllPartsFit(parts)
    ensures var w := FindFrom(parts, from, name);
            w.At? ==> from <= w.k < |parts| && Matches(ShownDir(parts[w.k]), w.tag, name)
    decreases |parts| - from
  {
    hide PartAnswer, Has, ShownDir, StoredDir, PartOk, AllBelow, NeverReached, AllBefore, AllFit;
    forall i | 0 <= i < |parts| ensures AllFit(parts[i].log) {
      PartSearched(parts[i], name);
    }
    PartSearched(parts[from], name);
    if PartAnswer(parts[from], name).Onward? && from + 1 < |parts| {
      FoundHas(parts, from + 1, name);
    }
  }

  /**
   * A name that shows is found exactly if no pair before it both hides an entry and has ever had a name at or behind
   * this one.
   */
  lemma {:induction false} FoundExactly(parts: seq<Part>, from: nat, k: nat, id: nat, name: seq<Byte>)
    requires DirectoryOk(parts) && from <= k < |parts| && Has(ShownDir(parts[k]), id, name)
    ensures AllPartsFit(parts)
    ensures FindFrom(parts, from, name).At? <==> LetsPass(parts, from, k, name)
    ensures FindFrom(parts, from, name).At? ==> FindFrom(parts, from, name).k == k
    decreases k - from
  {
    hide PartAnswer, Has, ShownDir, StoredDir, PartOk, AllBelow, NeverReached, AllBefore, AllFit, Right;
    FoundHas(parts, from, name);
    PartSearched(parts[from], name);
    if from < k {
      EarlierUnder(parts[from], parts[k], name, id);
      NotBoth(ShownDir(parts[from]), name);
      FoundExactly(parts, from + 1, k, id, name);
      assert LetsPass(parts, from, k, name) <==>
             LetsPass(parts, from + 1, k, name) && (parts[from].hidden == None || NeverReached(parts[from].log, name));
    }
  }

  lemma NotBoth(d: Dir, name: seq<Byte>)
    requires AllBelow(d, name)
    ensures forall id: nat :: !Has(d, id, name)
  {
    hide NameAt, NameCmp, Findable;
    NamesAreOrdered(name, name);
  }

  // ---- No move pending ----

  predicate NoneHidden(parts: seq<Part>) { forall i | 0 <= i < |parts| :: parts[i].hidden == None }

  /** The names of a pair come before a name, or behind it. */
  ghost predicate PairBelow(p: Part, name: seq<Byte>) {
    forall id: nat | NameAt(StoredDir(p), id).Some? :: Under(NameAt(StoredDir(p), id).value, name)
  }

  ghost predicate PairAbove(p: Part, name: seq<Byte>) {
    forall id: nat | NameAt(StoredDir(p), id).Some? :: Over(NameAt(StoredDir(p), id).value, name)
  }

  /** The place of a name in a directory that does not have it. */
  ghost predicate IsPlace(parts: seq<Part>, k: nat, id: nat, name: seq<Byte>) {
    && k < |parts| && 0 <= id <= StoredDir(parts[k]).count
    && (forall j | 0 <= j < k :: PairBelow(parts[j], name))
    && (forall j | k < j < |parts| :: PairAbove(parts[j], name))
    && Belongs(StoredDir(parts[k]), id, name)
  }

  lemma ShowsStored(p: Part)
    requires p.hidden == None
    ensures ShownDir(p) == StoredDir(p)
  {
  }

  /** Where one entry of a pair is behind a name, so are all later pairs. */
  lemma LaterAbove(p: Part, q: Part, id: nat, name: seq<Byte>)
    requires AllBefore(p, q) && NameAt(StoredDir(p), id).Some? && Over(NameAt(StoredDir(p), id).value, name)
    ensures PairAbove(q, name)
  {
    hide NameAt, StoredDir, NameCmp, Findable, Precedes;
    var v := NameAt(StoredDir(p), id).value;
    forall b: nat | NameAt(StoredDir(q), b).Some? ensures Over(NameAt(StoredDir(q), b).value, name) {
      assert Precedes(v, NameAt(StoredDir(q), b).value);
      OverFindable(v, name);
      Between(v, NameAt(StoredDir(q), b).value, name);
    }
  }

  lemma OverFindable(v: Value, name: seq<Byte>)
    ensures Over(v, name) ==> Findable(v.kind)
  {
  }

  lemma {:induction false} PlaceFrom(parts: seq<Part>, from: nat, name: seq<Byte>)
    requires DirectoryOk(parts) && NoneHidden(parts) && from < |parts|
    requires forall j | 0 <= j < from :: PairBelow(parts[j], name)
    ensures AllPartsFit(parts)
    ensures FindFrom(parts, from, name).At?
            || IsPlace(parts, FindFrom(parts, from, name).k, FindFrom(parts, from, name).id, name)
    decreases |parts| - from
  {
    hide PartAnswer, Has, ShownDir, StoredDir, PartOk, NeverReached, AllBefore, AllFit, NameAt, NameCmp, PairBelow,
         PairAbove;
    FoundHas(parts, from, name);
    var p, d := parts[from], StoredDir(parts[from]);
    PartSearched(p, name);
    ShowsStored(p);
    NamedBelow(p);
    match PartAnswer(p, name)
    case Hit(_) =>
    case Missing(id) =>
      forall j | from < j < |parts| ensures PairAbove(parts[j], name) {
        LaterAbove(p, parts[j], id, name);
      }
    case Onward(id) =>
      BelowAll(p, name);
      if from + 1 < |parts| {
        PlaceFrom(parts, from + 1, name);
      }
  }

  lemma NamedBelow(p: Part)
    requires PartOk(p)
    ensures StoredDir(p).count >= 0 && Orderly(StoredDir(p))
    ensures forall id: nat :: id < StoredDir(p).count <==> NameAt(StoredDir(p), id).Some?
  {
    hide NameAt, Replay;
    SearchKeepsPlace(p.log, []);
  }

  lemma BelowAll(p: Part, name: seq<Byte>)
    ensures AllBelow(StoredDir(p), name) <==> PairBelow(p, name)
  {
  }

  /**
   * While no move is pending, the search is exact: it finds a name if and only if some entry has it, and that entry;
   * and otherwise it gives the place where the name belongs.
   */
  lemma FindIsExact(parts: seq<Part>, name: seq<Byte>)
    requires DirectoryOk(parts) && NoneHidden(parts)
    ensures AllPartsFit(parts)
    ensures var w := FindFrom(parts, 0, name);
            && (w.At? <==> exists k, id: nat :: 0 <= k < |parts| && Has(StoredDir(parts[k]), id, name))
            && (w.At? ==> w.k < |parts| && Matches(StoredDir(parts[w.k]), w.tag, name))
            && (w.Nowhere? ==> IsPlace(parts, w.k, w.id, name))
  {
    hide PartAnswer, Has, StoredDir, PartOk, NeverReached, AllBefore, AllFit, IsPlace;
    FoundHas(parts, 0, name);
    PlaceFrom(parts, 0, name);
    var w := FindFrom(parts, 0, name);
    if w.At? {
      ShowsStored(parts[w.k]);
    }
    if k, id: nat :| 0 <= k < |parts| && Has(StoredDir(parts[k]), id, name) {
      ShowsStored(parts[k]);
      FoundExactly(parts, 0, k, id, name);
    }
  }

  // ---- New entries ----

  /** A pair with a new entry. */
  function With(p: Part, id: nat, name: Rec): Part {
    Part(p.log + [Rec(Tag(TYPE_CREATE, id, 0), []), name], p.hidden)
  }

  /** The names of a pair with a new entry. */
  lemma CreatedNames(p: Part, id: nat, name: Rec)
    requires NewName(name, id)
    ensures forall i: nat {:trigger NameAt(StoredDir(With(p, id, name)), i)} ::
              NameAt(StoredDir(With(p, id, name)), i) ==
              if i < id then NameAt(StoredDir(p), i) else if i == id then Some(ValueOf(name))
              else NameAt(StoredDir(p), i - 1)
  {
    hide NameAt, Apply, Replay, NameCmp, Findable, OnDisk;
    var log, c := p.log, Rec(Tag(TYPE_CREATE, id, 0), []);
    var d := Replay(log);
    var e := Apply(d, c);
    DeleteOnDisk(id);
    CreateIsSplice();
    ShiftedBy(d, c);
    assert forall k: nat :: Before(c, k) == if k < id then Some(k) else if k == id then None else Some(k - 1);
    NameKinds(name.tag.kind);
    NameKindOnDisk(name);
    NamedAfter(e, name);
    ReplaySnoc(log, c);
    ReplaySnoc(log + [c], name);
    assert log + [c, name] == log + [c] + [name];
    assert StoredDir(With(p, id, name)) == Apply(e, name);
  }

  lemma CreatedAfter(p: Part, q: Part, id: nat, name: Rec)
    requires NewName(name, id) && AllBefore(q, p) && PairBelow(q, name.data)
    ensures AllBefore(q, With(p, id, name))
  {
    hide NameAt, StoredDir, NameCmp, Findable, With;
    CreatedNames(p, id, name);
    NewIsFindable(name, id);
    var r := With(p, id, name);
    forall a: nat, b: nat | NameAt(StoredDir(q), a).Some? && NameAt(StoredDir(r), b).Some?
      ensures Precedes(NameAt(StoredDir(q), a).value, NameAt(StoredDir(r), b).value)
    {
      if b != id {
        assert NameAt(StoredDir(r), b) == NameAt(StoredDir(p), if b < id then b else b - 1);
      }
    }
  }

  lemma CreatedBefore(p: Part, q: Part, id: nat, name: Rec)
    requires NewName(name, id) && AllBefore(p, q) && PairAbove(q, name.data)
    ensures AllBefore(With(p, id, name), q)
  {
    hide NameAt, StoredDir, NameCmp, Findable, With;
    CreatedNames(p, id, name);
    NewIsFindable(name, id);
    OverIsAfter(name.data);
    var r := With(p, id, name);
    forall a: nat, b: nat | NameAt(StoredDir(r), a).Some? && NameAt(StoredDir(q), b).Some?
      ensures Precedes(NameAt(StoredDir(r), a).value, NameAt(StoredDir(q), b).value)
    {
      if a != id {
        assert NameAt(StoredDir(r), a) == NameAt(StoredDir(p), if a < id then a else a - 1);
      }
    }
  }

  /** A new entry in its place keeps the directory in order. */
  lemma CreateKeepsOrder(parts: seq<Part>, k: nat, id: nat, name: Rec)
    requires DirectoryOk(parts) && NoneHidden(parts) && IsPlace(parts, k, id, name.data) && NewName(name, id)
    requires StoredDir(parts[k]).count + 1 < NO_ID
    ensures DirectoryOk(parts[k := With(parts[k], id, name)]) && NoneHidden(parts[k := With(parts[k], id, name)])
  {
    hide StoredDir, PartOk, AllBefore, PairBelow, PairAbove, NewName, Belongs, With;
    var after := parts[k := With(parts[k], id, name)];
    CreatedOk(parts[k], id, name);
    forall i, j | 0 <= i < j < |after| ensures AllBefore(after[i], after[j]) {
      if j == k {
        CreatedAfter(parts[k], parts[i], id, name);
      } else if i == k {
        CreatedBefore(parts[k], parts[j], id, name);
      }
    }
  }

  /**
   * Creating a name where the search says keeps the directory in order, for every name and directory; the next search
   * finds exactly the new entry.
   */
  lemma CreateIsFound(parts: seq<Part>, name: Rec)
    requires DirectoryOk(parts) && NoneHidden(parts) && AllPartsFit(parts)
    requires var w := FindFrom(parts, 0, name.data);
             && w.Nowhere? && w.k < |parts| && NewName(name, w.id) && StoredDir(parts[w.k]).count + 1 < NO_ID
    ensures var w := FindFrom(parts, 0, name.data);
            var after := parts[w.k := With(parts[w.k], w.id, name)];
            && DirectoryOk(after) && NoneHidden(after) && AllPartsFit(after)
            && FindFrom(after, 0, name.data) == At(w.k, name.tag)
  {
    hide StoredDir, PartOk, AllBefore, AllPartsFit, NewName, FindFrom, IsPlace, DirectoryOk, With, NameAt, Orderly,
         Findable;
    var w := FindFrom(parts, 0, name.data);
    FindIsExact(parts, name.data);
    PlaceParts(parts, w.k, w.id, name.data);
    CreateKeepsOrder(parts, w.k, w.id, name);
    CreatedOk(parts[w.k], w.id, name);
    var after := parts[w.k := With(parts[w.k], w.id, name)];
    FindIsExact(after, name.data);
    FoundNew(after, w.k, w.id, name);
  }

  lemma PlaceParts(parts: seq<Part>, k: nat, id: nat, name: seq<Byte>)
    requires DirectoryOk(parts) && IsPlace(parts, k, id, name)
    ensures PartOk(parts[k]) && 0 <= id <= StoredDir(parts[k]).count && Belongs(StoredDir(parts[k]), id, name)
  {
    hide PartOk, StoredDir, Belongs;
  }

  lemma FoundNew(parts: seq<Part>, k: nat, id: nat, name: Rec)
    requires DirectoryOk(parts) && NoneHidden(parts) && k < |parts| && NewName(name, id)
    requires Has(StoredDir(parts[k]), id, name.data) && NameAt(StoredDir(parts[k]), id) == Some(ValueOf(name))
    ensures AllPartsFit(parts) && FindFrom(parts, 0, name.data) == At(k, name.tag)
  {
    hide StoredDir, PartOk, AllBefore, AllFit, NameAt, Orderly, Findable, FindFrom, ShownDir, Has;
    FoundHas(parts, 0, name.data);
    ShowsStored(parts[k]);
    FoundExactly(parts, 0, k, id, name.data);
    NamedBelow(parts[k]);
    var d, t := StoredDir(parts[k]), FindFrom(parts, 0, name.data).tag;
    if id < t.id {
      NameOnce(d, id, t.id, name.data);
    } else if t.id < id {
      NameOnce(d, t.id, id, name.data);
    }
  }

  lemma CreatedOk(p: Part, id: nat, name: Rec)
    requires PartOk(p) && p.hidden == None && NewName(name, id) && StoredDir(p).count + 1 < NO_ID
    requires 0 <= id <= StoredDir(p).count && Belongs(StoredDir(p), id, name.data)
    ensures var r := With(p, id, name);
            && PartOk(r) && r.hidden == None && Has(StoredDir(r), id, name.data)
            && StoredDir(r).count == StoredDir(p).count + 1 && NameAt(StoredDir(r), id) == Some(ValueOf(name))
  {
    hide NameAt, Replay, NameCmp, Findable;
    CreateTidy(p.log, id, name);
    CreatedNames(p, id, name);
    NewIsFindable(name, id);
  }

  lemma NewIsFindable(name: Rec, id: nat)
    requires NewName(name, id)
    ensures Findable(name.tag.kind)
  {
  }

  /** A directory has no name twice. */
  lemma NameOnce(d: Dir, a: nat, b: nat, name: seq<Byte>)
    requires Orderly(d) && Has(d, a, name) && a < b
    ensures !Has(d, b, name)
  {
    hide NameAt, NameCmp, Findable;
    NamesAreOrdered(name, name);
    if NameAt(d, b).Some? {
      assert Precedes(NameAt(d, a).value, NameAt(d, b).value);
    }
  }

  // ---- A name that is not found ----

  /** A file with a name of one letter. */
  function FileName(id: nat, c: Byte): Rec { Rec(Tag(0x001, id, 1), [c]) }

  function Added(p: Part, id: nat, c: Byte): Part { With(p, id, FileName(id, c)) }

  function Dropped(p: Part, id: nat): Part { Part(p.log + [Rec(Tag(TYPE_DELETE, id, 0), [])], p.hidden) }

  /** A pair with some files in order. */
  ghost predicate Files(p: Part, letters: seq<Byte>) {
    && PartOk(p) && p.hidden == None && StoredDir(p).count == |letters|
    && forall i: nat :: NameAt(StoredDir(p), i) == if i < |letters| then Some(Value(0x001, 1, [letters[i]])) else None
  }

  /** Which letter comes first. */
  predicate Earlier(a: Byte, b: Byte) { a.bits < b.bits }

  lemma LetterOrder(a: Byte, b: Byte)
    requires Earlier(a, b)
    ensures NameCmp([a], [b]).Less? && NameCmp([b], [a]).Greater?
  {
    hide NameCmp;
    NameCmpStep([a], [b]);
    NamesAreOrdered([a], [b]);
  }

  lemma NoFiles()
    ensures Files(Part([], None), [])
  {
  }

  lemma FileIsNew(id: nat, c: Byte)
    ensures NewName(FileName(id, c), id)
  {
  }

  lemma AddFile(p: Part, letters: seq<Byte>, id: nat, c: Byte)
    requires Files(p, letters) && id <= |letters| && |letters| + 1 < NO_ID
    requires forall i | 0 <= i < id :: Earlier(letters[i], c)
    requires forall i | id <= i < |letters| :: Earlier(c, letters[i])
    ensures Files(Added(p, id, c), letters[..id] + [c] + letters[id..])
  {
    hide NameAt, StoredDir, PartOk, NameCmp, With, Earlier;
    var after := letters[..id] + [c] + letters[id..];
    forall i: nat | NameAt(StoredDir(p), i).Some?
      ensures if i < id then Under(NameAt(StoredDir(p), i).value, [c]) else Over(NameAt(StoredDir(p), i).value, [c])
    {
      if i < id {
        LetterOrder(letters[i], c);
      } else {
        LetterOrder(c, letters[i]);
      }
    }
    FileIsNew(id, c);
    CreatedOk(p, id, FileName(id, c));
    CreatedNames(p, id, FileName(id, c));
  }

  lemma DropFile(p: Part, letters: seq<Byte>, id: nat)
    requires Files(p, letters) && id < |letters|
    ensures Files(Dropped(p, id), letters[..id] + letters[id + 1..])
  {
    hide NameAt, Replay, Tidy, EveryNamed;
    DeleteTidy(p.log, id);
    ShownNames(p.log, id);
    assert Dropped(p, id).log == Visible(p.log, Some(id));
  }

  const A := Byte(97)
  const M := Byte(109)
  const Z := Byte(122)

  /** "a" and "m", of which "m" has been deleted and "a" is being moved away. */
  function FirstPair(): Part {
    var none := Part([], None);
    Dropped(Added(Added(none, 0, A), 1, M), 1).(hidden := Some(0))
  }

  /** "z", and "m" created anew in front of it. */
  function SecondPair(): Part { Added(Added(Part([], None), 0, Z), 0, M) }

  /**
   * While a move is pending in one pair, a name in a later pair may not be found: "m" is there, but the search stops at
   * the first pair, which once had it.
   */
  lemma MoveHidesOther()
    ensures var parts := [FirstPair(), SecondPair()];
            && DirectoryOk(parts) && AllPartsFit(parts) && Has(ShownDir(parts[1]), 0, [M])
            && FindFrom(parts, 0, [M]).Nowhere?
  {
    hide NameAt, StoredDir, PartOk, NameCmp, Added, Dropped, ShownDir, NeverReached, Findable;
    var none := Part([], None);
    var both, z := Added(Added(none, 0, A), 1, M), Added(none, 0, Z);
    NoFiles();
    AddFile(none, [], 0, A);
    AddFile(Added(none, 0, A), [A], 1, M);
    DropFile(both, [A, M], 1);
    AddFile(none, [], 0, Z);
    AddFile(z, [Z], 0, M);
    assert [] + [A] + [] == [A] && [A] + [M] + [] == [A, M] && [A, M][..1] + [A, M][2..] == [A];
    assert [] + [Z] + [] == [Z] && [] + [M] + [Z] == [M, Z];
    HideFirst(Dropped(both, 1), A);
    ShowsStored(SecondPair());
    LetterOrder(A, M);
    LetterOrder(A, Z);
    LetterNames();
    Reached(both);
    var parts := [FirstPair(), SecondPair()];
    FoundExactly(parts, 0, 1, 0, [M]);
  }

  lemma LetterNames()
    ensures Findable(0x001)
  {
  }

  lemma HideFirst(p: Part, c: Byte)
    requires Files(p, [c])
    ensures PartOk(p.(hidden := Some(0))) && StoredDir(p.(hidden := Some(0))) == StoredDir(p)
  {
  }

  /** The first pair has had the name. */
  lemma Reached(p: Part)
    requires p == Added(Added(Part([], None), 0, A), 1, M)
    ensures !NeverReached(Dropped(p, 1).log, [M])
  {
    hide NameCmp;
    var log := Dropped(p, 1).log;
    assert log[3] == FileName(1, M);
    NamesAreOrdered([M], [M]);
  }

  // ---- The search over the blocks ----

  /** What a fetch finds on a pair of blocks; None is LFS_ERR_CORRUPT. */
  ghost function Fetched(first: array<Byte>, second: array<Byte>, prog: nat): Option<Found>
    reads first, second
    requires first.Length >= 4 && second.Length >= 4 && prog > 0
  {
    match FetchPair(first[..], second[..], prog)
    case Some(m) => Some(m.result.found)
    case None => None
  }

  /** The pairs of a directory in order: their blocks, and the addresses of these. */
  datatype Chain = Chain(firsts: seq<array<Byte>>, seconds: seq<array<Byte>>, addrs: seq<Pair>) {
    predicate Usable() {
      && |firsts| == |seconds| == |addrs| > 0
      && forall i | 0 <= i < |firsts| :: firsts[i].Length >= 4 && seconds[i].Length >= 4
    }

    ghost function Fetch(i: nat, prog: nat): Option<Found>
      reads firsts, seconds
      requires Usable() && i < |firsts| && prog > 0
    {
      Fetched(firsts[i], seconds[i], prog)
    }

    /** Where a tail says that the directory goes on, there is a next pair. */
    ghost predicate TailsLead(prog: nat)
      reads firsts, seconds
      requires Usable() && prog > 0
    {
      forall i | 0 <= i < |firsts| && Fetch(i, prog).Some? :: Fetch(i, prog).value.split ==> i + 1 < |firsts|
    }

    /** A pair as a part of the directory. */
    ghost function PartAt(i: nat, prog: nat, gdisk: GState): Part
      reads firsts, seconds
      requires Usable() && prog > 0 && i < |firsts|
    {
      match Fetch(i, prog)
      case Some(f) => Part(f.log, HiddenIn(gdisk, addrs[i]))
      case None => Part([], None)
    }

    /** The first n pairs. */
    ghost function Parts(n: nat, prog: nat, gdisk: GState): (parts: seq<Part>)
      reads firsts, seconds
      requires Usable() && prog > 0 && n <= |firsts|
      ensures |parts| == n
    {
      if n == 0 then [] else Parts(n - 1, prog, gdisk) + [PartAt(n - 1, prog, gdisk)]
    }

    lemma GoesOnInside(prog: nat, k: nat)
      requires Usable() && prog > 0 && TailsLead(prog) && k < |firsts| && Fetch(k, prog).Some?
      requires Fetch(k, prog).value.split
      ensures k + 1 < |firsts|
    {
    }
  }

  /** lfs_dir_fetchmatch of a name: the answer, and whether the directory goes on. */
  method FetchMatch(first: array<Byte>, second: array<Byte>, addr: Pair, prog: nat, gdisk: GState, name: seq<Byte>)
    returns (ok: bool, a: Answer, split: bool, ghost p: Part)
    requires first.Length >= 4 && second.Length >= 4 && prog > 0
    ensures ok <==> Fetched(first, second, prog).Some?
    ensures ok ==> p == Part(Fetched(first, second, prog).value.log, HiddenIn(gdisk, addr))
    ensures ok ==> AllFit(p.log) && a == PartAnswer(p, name) && split == Fetched(first, second, prog).value.split
  {
    hide FetchBlock, Newer, Count, BestOf, HiddenIn, Unpack, IsValid, Marked, Moved;
    var r, rev, off, etag, count, tail, erased, best;
    ghost var log;
    ok, r, rev, off, etag, count, tail, split, erased, best, log := FetchDir(first, second, prog, Some(name));
    if !ok {
      return false, Missing(0), false, Part([], None);
    }
    var hidden := HiddenIn(gdisk, addr);
    p := Part(log, hidden);
    // synthetic move
    if hidden.Some? {
      if hidden.value == Unpack(best).id {
        best := Marked(best);
      } else if best != BLANK && hidden.value < Unpack(best).id {
        best := Moved(best, TYPE_DELETE);
      }
    }
    if IsValid(best) {
      a := Hit(Unpack(best));
    } else if Unpack(best).id < count {
      a := Missing(Unpack(best).id);
    } else {
      a := Onward(count);
    }
  }

  /** The pairs before some pair are read, and send the search for a name on. */
  ghost predicate Passed(chain: Chain, n: nat, prog: nat, gdisk: GState, name: seq<Byte>)
    reads chain.firsts, chain.seconds
    requires chain.Usable() && prog > 0 && n <= |chain.firsts|
  {
    && AllPartsFit(chain.Parts(n, prog, gdisk))
    && forall i | 0 <= i < n :: chain.Fetch(i, prog).Some? && PartAnswer(chain.Parts(n, prog, gdisk)[i], name).Onward?
  }

  /**
   * The loop of lfs_dir_find over the pairs of one directory, which its tails lead through. None is LFS_ERR_CORRUPT,
   * for a pair that holds no commit.
   */
  method FindName(chain: Chain, prog: nat, gdisk: GState, name: seq<Byte>) returns (r: Option<Where>)
    requires chain.Usable() && prog > 0 && chain.TailsLead(prog)
    ensures r.Some? ==>
              var k := r.value.k;
              && k < |chain.firsts| && Passed(chain, k, prog, gdisk, name) && chain.Fetch(k, prog).Some?
              && var parts := chain.Parts(k + 1, prog, gdisk);
              && AllPartsFit(parts) && r.value == FindFrom(parts, 0, name)
              && (PartAnswer(parts[k], name).Onward? ==> !chain.Fetch(k, prog).value.split)
    ensures r == None ==>
              exists k: nat :: k < |chain.firsts| && Passed(chain, k, prog, gdisk, name) && chain.Fetch(k, prog) == None
  {
    hide PartAnswer, AllFit, HiddenIn, FetchPair, Fetched, FindFrom, Chain.TailsLead, Passed;
    var k: nat := 0;
    NothingPassed(chain, prog, gdisk, name);
    while true
      invariant k < |chain.firsts| && Passed(chain, k, prog, gdisk, name) && chain.TailsLead(prog)
      decreases |chain.firsts| - k
    {
      var ok, a, split;
      ghost var p;
      ok, a, split, p := FetchMatch(chain.firsts[k], chain.seconds[k], chain.addrs[k], prog, gdisk, name);
      if !ok {
        assert Passed(chain, k, prog, gdisk, name) && chain.Fetch(k, prog) == None;
        return None;
      }
      OneMore(chain, k, prog, gdisk, name);
      match a
      case Hit(t) => return Some(At(k, t));
      case Missing(id) => return Some(Nowhere(k, id));
      case Onward(id) =>
        if !split {
          return Some(Nowhere(k, id));
        }
        chain.GoesOnInside(prog, k);
        k := k + 1;
    }
  }

  lemma NothingPassed(chain: Chain, prog: nat, gdisk: GState, name: seq<Byte>)
    requires chain.Usable() && prog > 0
    ensures Passed(chain, 0, prog, gdisk, name)
  {
  }

  /** One more pair that can be read. */
  lemma OneMore(chain: Chain, k: nat, prog: nat, gdisk: GState, name: seq<Byte>)
    requires chain.Usable() && prog > 0 && k < |chain.firsts| && Passed(chain, k, prog, gdisk, name)
    requires chain.Fetch(k, prog).Some? && AllFit(chain.PartAt(k, prog, gdisk).log)
    ensures var parts, p := chain.Parts(k + 1, prog, gdisk), chain.PartAt(k, prog, gdisk);
            && AllPartsFit(parts) && parts[k] == p
            && (PartAnswer(p, name).Onward? ==> Passed(chain, k + 1, prog, gdisk, name))
            && FindFrom(parts, 0, name) == match PartAnswer(p, name) {
                 case Hit(t) => At(k, t)
                 case Missing(id) => Nowhere(k, id)
                 case Onward(id) => Nowhere(k, id)
               }
  {
    hide PartAnswer, AllFit, HiddenIn, Fetched, FindFrom;
    var before, parts := chain.Parts(k, prog, gdisk), chain.Parts(k + 1, prog, gdisk);
    assert forall i | 0 <= i < k :: parts[i] == before[i];
    LastDecides(parts, 0, name);
  }

  /** Where all pairs but the last send the search on, the last one answers. */
  lemma {:induction false} LastDecides(parts: seq<Part>, k: nat, name: seq<Byte>)
    requires k < |parts| && AllPartsFit(parts)
    requires forall i | 0 <= i < |parts| - 1 :: PartAnswer(parts[i], name).Onward?
    ensures var n := |parts| - 1;
            FindFrom(parts, k, name) == match PartAnswer(parts[n], name) {
              case Hit(t) => At(n, t)
              case Missing(id) => Nowhere(n, id)
              case Onward(id) => Nowhere(n, id)
            }
    decreases |parts| - k
  {
    hide PartAnswer, AllFit;
    if k + 1 < |parts| {
      LastDecides(parts, k + 1, name);
    }
  }
}
