/**
 * Reading an attribute: lfs_dir_getslice walks a log backward from its newest tag, following the exclusive-or chain,
 * and undoes the renumbering of ids as it passes creates and deletes. The answer is the one of the forward replay.
 */
module Lookup {
  import opened Arith
  import opened Words
  import opened Tags
  import opened Log
  import opened Fetch

  // ---- The chain, read backward ----

  /** The bytes of a block up to off are the tags of a log, the last of which is chained to the word etag. */
  predicate Encodes(block: seq<Byte>, off: nat, etag: Word, log: seq<Rec>)
    requires off <= |block|
    decreases |log|
  {
    if log == [] then off == 4 && Masked(etag) == Masked(BLANK)
    else
      var r := log[|log| - 1];
      && r.tag == Unpack(etag) && off >= 4 + r.tag.DSize()
      && r.data == block[off - r.tag.DataSize()..off]
      && Encodes(block, off - r.tag.DSize(), Xor(BeAt(block, off - r.tag.DSize()), etag), log[..|log| - 1])
  }

  /** Only the fields of the chained word matter, not its valid bit. */
  lemma {:induction false} EncodesIgnoresValidBit(block: seq<Byte>, off: nat, e: Word, f: Word, log: seq<Rec>)
    requires off <= |block| && Masked(e) == Masked(f) && Encodes(block, off, e, log)
    ensures Encodes(block, off, f, log)
    decreases |log|
  {
    if log != [] {
      FieldsIgnoreValidBit(e, f);
      var at := off - Unpack(e).DSize();
      MaskedXor(BeAt(block, at), e, f);
      EncodesIgnoresValidBit(block, at, Xor(BeAt(block, at), e), Xor(BeAt(block, at), f), log[..|log| - 1]);
    }
  }

  lemma MaskedXor(w: Word, e: Word, f: Word)
    requires Masked(e) == Masked(f)
    ensures Masked(Xor(w, e)) == Masked(Xor(w, f))
  {
  }

  lemma XorBack(w: Word, p: Word)
    ensures Xor(w, Xor(w, p)) == p
  {
  }

  /** A scan that goes on has read one more tag of the chain. */
  lemma EncodesStep(block: seq<Byte>, prog: nat, st: State)
    requires prog > 0 && st.off <= |block| && Encodes(block, st.off, st.ptag, st.log)
    requires Step(block, prog, st).Go?
    ensures var next := Step(block, prog, st).next;
            next.off <= |block| && Encodes(block, next.off, next.ptag, next.log)
  {
    DecideGo(|block|, prog, st, LookAt(block, st.off, st.ptag));
    EncodesLook(block, st, LookAt(block, st.off, st.ptag), Step(block, prog, st).next);
  }

  lemma EncodesLook(block: seq<Byte>, st: State, l: Look, next: State)
    requires st.off <= |block| && Encodes(block, st.off, st.ptag, st.log) && l == LookAt(block, st.off, st.ptag)
    requires l.head != [] && next.off == st.off + Unpack(l.tag).DSize() <= |block|
    requires next.log == st.log + [Rec(Unpack(l.tag), l.data)] && Masked(next.ptag) == Masked(l.tag)
    ensures Encodes(block, next.off, next.ptag, next.log)
  {
    hide Encodes, Masked;
    EncodesNext(block, st.off, st.ptag, st.log, l.tag, next.ptag);
  }

  lemma EncodesNext(block: seq<Byte>, off: nat, ptag: Word, log: seq<Rec>, tag: Word, chained: Word)
    requires off + 4 <= off + Unpack(tag).DSize() <= |block| && Encodes(block, off, ptag, log)
    requires tag == Xor(BeAt(block, off), ptag) && Masked(tag) == Masked(chained)
    ensures var end := off + Unpack(tag).DSize();
            Encodes(block, end, chained, log + [Rec(Unpack(tag), block[off + 4..end])])
  {
    hide Encodes, Xor, Unpack, Masked, BeAt;
    var end := off + Unpack(tag).DSize();
    EncodesSnoc(block, off, ptag, log, tag);
    EncodesIgnoresValidBit(block, end, tag, chained, log + [Rec(Unpack(tag), block[off + 4..end])]);
  }

  lemma EncodesSnoc(block: seq<Byte>, off: nat, ptag: Word, log: seq<Rec>, tag: Word)
    requires off + 4 <= off + Unpack(tag).DSize() <= |block| && Encodes(block, off, ptag, log)
    requires tag == Xor(BeAt(block, off), ptag)
    ensures var end := off + Unpack(tag).DSize();
            Encodes(block, end, tag, log + [Rec(Unpack(tag), block[off + 4..end])])
  {
    var l := log + [Rec(Unpack(tag), block[off + 4..off + Unpack(tag).DSize()])];
    assert l[..|l| - 1] == log;
    XorBack(BeAt(block, off), ptag);
    EncodesBounds(block, off, ptag, log);
  }

  lemma {:induction false} EncodesBounds(block: seq<Byte>, off: nat, etag: Word, log: seq<Rec>)
    requires off <= |block| && Encodes(block, off, etag, log)
    ensures off >= 4
    ensures log != [] ==> off >= 8
    decreases |log|
  {
    if log != [] {
      var d := log[|log| - 1].tag.DSize();
      EncodesBounds(block, off - d, Xor(BeAt(block, off - d), etag), log[..|log| - 1]);
    }
  }

  lemma {:induction false} ScanEncodes(block: seq<Byte>, prog: nat, st: State)
    requires prog > 0 && st.off <= |block| && Encodes(block, st.off, st.ptag, st.log)
    requires st.best.off > 0 ==> st.best.off <= |block| && Encodes(block, st.best.off, st.best.etag, st.best.log)
    ensures var f := Scan(block, prog, st).found;
            f.off > 0 ==> f.off <= |block| && Encodes(block, f.off, f.etag, f.log)
    decreases |block| - st.off
  {
    ScanStep(block, prog, st);
    match Step(block, prog, st)
    case Stop(_) =>
    case Go(next) =>
      EncodesStep(block, prog, st);
      ScanEncodes(block, prog, next);
  }

  /** What a fetch finds can be walked backward: off, etag and the bytes before off determine the log. */
  lemma FetchedEncodes(block: seq<Byte>, prog: nat)
    requires prog > 0 && |block| >= 4
    ensures var f := FetchBlock(block, prog).found;
            f.off > 0 ==> f.off <= |block| && Encodes(block, f.off, f.etag, f.log)
  {
    ScanEncodes(block, prog, Start(block));
  }

  // ---- What a lookup means ----

  /** What a caller asks for: a type under a mask, and an id or no id at all. */
  datatype Query = Query(kmask: bv11, kind: bv11, id: Option<nat>)

  datatype Lookup = NoEnt | Corrupt | Got(tag: Tag, data: seq<Byte>)

  /** The log of a pair in which a move is pending: the moved entry counts as deleted. */
  function Visible(log: seq<Rec>, hidden: Option<nat>): seq<Rec> {
    match hidden
    case None => log
    case Some(id) => log + [Rec(Tag(TYPE_DELETE, id, 0), [])]
  }

  /** The newest record of a type, whatever its id. */
  function NewestRec(log: seq<Rec>, kmask: bv11, kind: bv11): Option<Value> {
    if log == [] then None
    else if Alike(kmask, kind, log[|log| - 1].tag.kind) then Some(ValueOf(log[|log| - 1]))
    else NewestRec(log[..|log| - 1], kmask, kind)
  }

  /** What the forward replay says about a query. */
  function Meaning(log: seq<Rec>, hidden: Option<nat>, q: Query): Option<Value> {
    match q.id
    case None => NewestRec(log, q.kmask, q.kind)
    case Some(id) => Newest(Entry(Replay(Visible(log, hidden)), id), q.kmask, q.kind)
  }

  /** The queries made of entries: attribute types, told apart at least by their abstract type. */
  predicate AsksForAttr(q: Query) { q.id.Some? ==> q.kmask & 0x700 == 0x700 && IsAttr(q.kind) }

  /** Creates are written without a size, as the comparison with a whole create tag expects. */
  predicate PlainCreates(log: seq<Rec>) {
    forall i | 0 <= i < |log| :: log[i].tag.kind == TYPE_CREATE ==> log[i].tag.size == 0
  }

  /** Walking a log backward from id, no id on the way overflows the 10-bit field. */
  predicate IdsFit(log: seq<Rec>, id: nat)
    decreases |log|
  {
    && id < 1024
    && (log != [] ==>
          match Before(log[|log| - 1], id) { case None => true case Some(b) => IdsFit(log[..|log| - 1], b) })
  }

  /** The tag arithmetic of a lookup by id does not wrap. */
  predicate QueryFits(log: seq<Rec>, hidden: Option<nat>, q: Query) {
    q.id.Some? ==> IdsFit(Visible(log, hidden), q.id.value)
  }

  /**
   * A log numbers its entries consecutively: creates and deletes stay within the count, the count within the id field,
   * and names enlarge the count only in the part before the first create or delete, which a compaction wrote.
   */
  predicate WellNumbered(log: seq<Rec>)
    decreases |log|
  {
    log == [] ||
    var front, r := log[..|log| - 1], log[|log| - 1];
    var n := Replay(front).count;
    && WellNumbered(front) && 0 <= Replay(log).count < 1024 && r.tag.id < 1024
    && (r.tag.kind == TYPE_CREATE ==> r.tag.id <= n)
    && (r.tag.kind == TYPE_DELETE ==> r.tag.id < n)
    && (IsAttr(r.tag.kind) && Type1(r.tag.kind) == TYPE_NAME && r.tag.id >= n ==> Unspliced(front))
  }

  predicate Unspliced(log: seq<Rec>) {
    forall i | 0 <= i < |log| :: log[i].tag.kind != TYPE_CREATE && log[i].tag.kind != TYPE_DELETE
  }

  lemma {:induction false} UnsplicedFits(log: seq<Rec>, id: nat)
    requires Unspliced(log) && id < 1024
    ensures IdsFit(log, id)
    decreases |log|
  {
    if log != [] {
      UnsplicedFits(log[..|log| - 1], id);
    }
  }

  lemma CountAfter(front: seq<Rec>, r: Rec)
    ensures Replay(front + [r]).count ==
            if r.tag.kind == TYPE_CREATE then Replay(front).count + 1
            else if r.tag.kind == TYPE_DELETE then Replay(front).count - 1
            else if IsAttr(r.tag.kind) && Type1(r.tag.kind) == TYPE_NAME
              && r.tag.id >= Replay(front).count then r.tag.id + 1
            else Replay(front).count
  {
    ReplaySnoc(front, r);
  }

  /** In a log with consecutive numbers, every entry below the count can be asked for. */
  lemma {:induction false} NumberedFits(log: seq<Rec>, id: nat)
    requires WellNumbered(log) && (id < Replay(log).count || (Unspliced(log) && id < 1024))
    ensures IdsFit(log, id)
    decreases |log|
  {
    hide Replay, IsAttr, Type1;
    if Unspliced(log) {
      if log == [] {
        NothingNumbered();
      } else {
        UnsplicedFits(log, id);
      }
    } else {
      var n := |log| - 1;
      assert log == log[..n] + [log[n]];
      CountAfter(log[..n], log[n]);
      if Before(log[n], id).Some? {
        NumberedFits(log[..n], Before(log[n], id).value);
      }
    }
  }

  lemma NothingNumbered()
    ensures Replay([]).count == 0
  {
  }

  lemma MatchedIsAttr(kmask: bv11, kind: bv11, other: bv11)
    requires kmask & 0x700 == 0x700 && IsAttr(kind)
    ensures Alike(kmask, kind, other) ==> IsAttr(other)
  {
  }

  lemma NewestSnoc(values: seq<Value>, v: Value, kmask: bv11, kind: bv11)
    ensures Newest(values + [v], kmask, kind) ==
            if Alike(kmask, kind, v.kind) then Some(v) else Newest(values, kmask, kind)
  {
    assert (values + [v])[..|values|] == values;
  }

  /** A record appended to the values of an id it may or may not belong to. */
  lemma NewestStep(values: seq<Value>, r: Rec, kmask: bv11, kind: bv11)
    requires kmask & 0x700 == 0x700 && IsAttr(kind)
    ensures Newest(if IsAttr(r.tag.kind) then values + [ValueOf(r)] else values, kmask, kind) ==
            if Alike(kmask, kind, r.tag.kind) then Some(ValueOf(r)) else Newest(values, kmask, kind)
  {
    if IsAttr(r.tag.kind) {
      NewestSnoc(values, ValueOf(r), kmask, kind);
    } else {
      MatchedIsAttr(kmask, kind, r.tag.kind);
    }
  }

  /** One record of the walk, undone. */
  lemma NewestBefore(front: seq<Rec>, r: Rec, kmask: bv11, kind: bv11, id: nat)
    requires kmask & 0x700 == 0x700 && IsAttr(kind)
    ensures Newest(Entry(Replay(front + [r]), id), kmask, kind) ==
            match Before(r, id) {
              case None => None
              case Some(b) =>
                if r.tag.id == id && Alike(kmask, kind, r.tag.kind) then Some(ValueOf(r))
                else Newest(Entry(Replay(front), b), kmask, kind)
            }
  {
    ReplaySnoc(front, r);
    ApplyEntry(Replay(front), r, id);
    if Before(r, id).Some? && r.tag.id == id {
      NewestStep(Entry(Replay(front), Before(r, id).value), r, kmask, kind);
    }
  }

  // ---- The walk ----

  /** Which records of a log agree with a query in type. */
  predicate Marks(log: seq<Rec>, q: Query, marks: seq<bool>) {
    |marks| == |log| && forall i | 0 <= i < |log| :: marks[i] == Alike(q.kmask, q.kind, log[i].tag.kind)
  }

  function MarksOf(log: seq<Rec>, q: Query): (marks: seq<bool>)
    ensures Marks(log, q, marks)
  {
    seq(|log|, i requires 0 <= i < |log| => Alike(q.kmask, q.kind, log[i].tag.kind))
  }

  /** The walk over records: newest first, renumbering the id past each splice; marks says which types agree. */
  function Back(log: seq<Rec>, marks: seq<bool>, id: nat): Option<Value>
    requires |marks| == |log|
    decreases |log|
  {
    if log == [] then None
    else
      var n := |log| - 1;
      match Before(log[n], id)
      case None => None
      case Some(b) => if marks[n] && log[n].tag.id == id then Some(ValueOf(log[n])) else Back(log[..n], marks[..n], b)
  }

  /** The walk that ignores ids. */
  function BackAny(log: seq<Rec>, marks: seq<bool>): Option<Value>
    requires |marks| == |log|
    decreases |log|
  {
    if log == [] then None
    else
      var n := |log| - 1;
      if marks[n] then Some(ValueOf(log[n])) else BackAny(log[..n], marks[..n])
  }

  lemma NewestMarked(front: seq<Rec>, r: Rec, q: Query, id: nat, mark: bool)
    requires q.kmask & 0x700 == 0x700 && IsAttr(q.kind) && mark == Alike(q.kmask, q.kind, r.tag.kind)
    ensures Newest(Entry(Replay(front + [r]), id), q.kmask, q.kind) ==
            match Before(r, id) {
              case None => None
              case Some(b) =>
                if mark && r.tag.id == id then Some(ValueOf(r)) else Newest(Entry(Replay(front), b), q.kmask, q.kind)
            }
  {
    NewestBefore(front, r, q.kmask, q.kind, id);
  }

  /** Backward lookup refines forward replay. */
  lemma {:induction false} BackIsNewest(log: seq<Rec>, q: Query, marks: seq<bool>, id: nat)
    requires q.kmask & 0x700 == 0x700 && IsAttr(q.kind) && Marks(log, q, marks)
    ensures Back(log, marks, id) == Newest(Entry(Replay(log), id), q.kmask, q.kind)
    decreases |log|
  {
    if log != [] {
      var n := |log| - 1;
      assert log == log[..n] + [log[n]];
      NewestMarked(log[..n], log[n], q, id, marks[n]);
      if Before(log[n], id).Some? {
        BackIsNewest(log[..n], q, marks[..n], Before(log[n], id).value);
      }
    }
  }

  lemma {:induction false} BackAnyIsNewest(log: seq<Rec>, q: Query, marks: seq<bool>)
    requires Marks(log, q, marks)
    ensures BackAny(log, marks) == NewestRec(log, q.kmask, q.kind)
    decreases |log|
  {
    if log != [] {
      var n := |log| - 1;
      assert marks[n] == Alike(q.kmask, q.kind, log[n].tag.kind);
      BackAnyIsNewest(log[..n], q, marks[..n]);
    }
  }

  /** The answer for a value found in the log: NOENT when there is none or the newest is a removal. */
  function Answer(v: Option<Value>, id: nat, size: nat): Lookup {
    if Live(v).Some? then Got(Tag(v.value.kind, id, v.value.size), ZeroExtended(v.value.data, size)) else NoEnt
  }

  /** The first size bytes of a value, filled up with zeros. */
  function ZeroExtended(data: seq<Byte>, size: nat): (r: seq<Byte>)
    ensures |r| == size && forall j | 0 <= j < size :: r[j] == if j < |data| then data[j] else Byte(0)
  {
    if |data| >= size then data[..size] else data + seq(size - |data|, _ => Byte(0))
  }

  /** The last record of an encoded log, as the walk sees it. */
  lemma LastOf(block: seq<Byte>, off: nat, etag: Word, log: seq<Rec>)
    requires off <= |block| && Encodes(block, off, etag, log)
    ensures log == [] <==> off < 4 + Unpack(etag).DSize()
    ensures log != [] ==>
              var r, at := log[|log| - 1], off - Unpack(etag).DSize();
              && r.tag == Unpack(etag) && at >= 4 && r.data == block[at + 4..off]
              && Encodes(block, at, Masked(Xor(BeAt(block, at), etag)), log[..|log| - 1])
  {
    hide Xor, BeAt;
    if log == [] {
      FieldsIgnoreValidBit(etag, BLANK);
    } else {
      var at := off - Unpack(etag).DSize();
      ValidIsMasked(Xor(BeAt(block, at), etag));
      EncodesIgnoresValidBit(block, at, Xor(BeAt(block, at), etag), Masked(Xor(BeAt(block, at), etag)),
        log[..|log| - 1]);
    }
  }

  /** A lookup, part of the way back: an entry asked for by id had the number id - gdiff then. */
  predicate Reached(answer: Option<Value>, asked: Option<nat>, front: seq<Rec>, marks: seq<bool>, gdiff: int)
    requires |marks| == |front|
  {
    match asked
    case None => gdiff == 0 && answer == BackAny(front, marks)
    case Some(id) => id - gdiff >= 0 && answer == Back(front, marks, id - gdiff)
  }

  /** A delete at the end of a log only renumbers. */
  lemma NewestBeforeDelete(log: seq<Rec>, at: nat, q: Query, id: nat)
    requires AsksForAttr(q) && q.id.Some?
    ensures Newest(Entry(Replay(log + [Rec(Tag(TYPE_DELETE, at, 0), [])]), id), q.kmask, q.kind) ==
            Newest(Entry(Replay(log), if at <= id then id + 1 else id), q.kmask, q.kind)
  {
    SpliceNoMatch(q, TYPE_DELETE);
    NewestMarked(log, Rec(Tag(TYPE_DELETE, at, 0), []), q, id, false);
  }

  /** Where the walk starts: a pending move counts as one more delete. */
  lemma StartsReached(log: seq<Rec>, hidden: Option<nat>, q: Query)
    requires AsksForAttr(q)
    ensures Reached(Meaning(log, hidden, q), q.id, log, MarksOf(log, q),
                    if q.id.Some? && hidden.Some? && hidden.value <= q.id.value then -1 else 0)
  {
    hide Newest, Replay, Entry, Alike, Back, NewestRec;
    match q.id
    case None => BackAnyIsNewest(log, q, MarksOf(log, q));
    case Some(id) =>
      if hidden.Some? {
        NewestBeforeDelete(log, hidden.value, q, id);
      }
      BackIsNewest(log, q, MarksOf(log, q), if hidden.Some? && hidden.value <= id then id + 1 else id);
  }

  /** What the walk does with one record. */
  datatype Turn = NotThere | Here | Further(gdiff: int)

  /** By how much a tag shifts the ids behind it, if it does. */
  function SpliceOf(kind: bv11): Option<int> {
    if Type1(kind) == TYPE_SPLICE then Some(Splice(kind)) else None
  }

  /** The comparisons made on one tag. */
  function TurnOf(t: Tag, splice: Option<int>, matches: bool, asked: Option<nat>, gdiff: int): Turn {
    var passed := asked.Some? && splice.Some? && t.id <= asked.value - gdiff;
    if passed && t == Tag(TYPE_CREATE, asked.value - gdiff, 0) then NotThere
    else
      var g := if passed then gdiff + splice.value else gdiff;
      if matches && (asked.Some? ==> t.id == asked.value - g) then if t.IsDelete() then NotThere else Here
      else Further(g)
  }

  lemma SpliceNoMatch(q: Query, kind: bv11)
    requires AsksForAttr(q) && q.id.Some? && SpliceOf(kind).Some?
    ensures !Alike(q.kmask, q.kind, kind)
  {
    MatchedIsAttr(q.kmask, q.kind, kind);
  }

  /** On a record of a log, a splice is a create or a delete. */
  predicate SpliceKnown(r: Rec, splice: Option<int>) {
    && (r.tag.kind == TYPE_CREATE ==> r.tag.size == 0)
    && splice == (if r.tag.kind == TYPE_CREATE then Some(1) else if r.tag.kind == TYPE_DELETE then Some(-1) else None)
  }

  lemma SpliceOfKind(r: Rec)
    requires OnDisk(r) && (r.tag.kind == TYPE_CREATE ==> r.tag.size == 0)
    ensures SpliceKnown(r, SpliceOf(r.tag.kind))
  {
  }

  /** Where a lookup stands after one turn of the walk. */
  lemma TurnReached(log: seq<Rec>, marks: seq<bool>, asked: Option<nat>, gdiff: int, answer: Option<Value>,
                    splice: Option<int>)
    requires |marks| == |log| > 0 && Reached(answer, asked, log, marks, gdiff)
    requires SpliceKnown(log[|log| - 1], splice) && (asked.Some? && splice.Some? ==> !marks[|log| - 1])
    ensures var n, r := |log| - 1, log[|log| - 1];
            match TurnOf(r.tag, splice, marks[n], asked, gdiff) {
              case NotThere => Live(answer) == None
              case Here => answer == Some(ValueOf(r)) && !r.tag.IsDelete()
                && (asked.Some? ==> r.tag.id == asked.value - gdiff)
              case Further(g) => Reached(answer, asked, log[..n], marks[..n], g)
            }
  {
  }

  lemma KnownTag(log: seq<Rec>, n: nat, q: Query)
    requires n < |log| && AllOnDisk(log) && PlainCreates(log) && AsksForAttr(q)
    ensures SpliceKnown(log[n], SpliceOf(log[n].tag.kind))
    ensures MarksOf(log, q)[n] == Alike(q.kmask, q.kind, log[n].tag.kind)
    ensures q.id.Some? && SpliceOf(log[n].tag.kind).Some? ==> !Alike(q.kmask, q.kind, log[n].tag.kind)
  {
    assert OnDisk(log[n]);
    SpliceOfKind(log[n]);
    if q.id.Some? && SpliceOf(log[n].tag.kind).Some? {
      SpliceNoMatch(q, log[n].tag.kind);
    }
  }

  /** The walk before a tag: front is the part of the log still ahead. */
  predicate Walking(block: seq<Byte>, off: nat, ntag: Word, log: seq<Rec>, q: Query, front: seq<Rec>, gdiff: int,
                    answer: Option<Value>) {
    && off <= |block| && Encodes(block, off, ntag, front) && front <= log
    && Reached(answer, q.id, front, MarksOf(log, q)[..|front|], gdiff)
  }

  lemma TurnInLog(log: seq<Rec>, q: Query, n: nat, gdiff: int, answer: Option<Value>)
    requires AllOnDisk(log) && PlainCreates(log) && AsksForAttr(q) && n < |log|
    requires Reached(answer, q.id, log[..n + 1], MarksOf(log, q)[..n + 1], gdiff)
    ensures var t := log[n].tag;
            match TurnOf(t, SpliceOf(t.kind), Alike(q.kmask, q.kind, t.kind), q.id, gdiff) {
              case NotThere => Live(answer) == None
              case Here => answer == Some(ValueOf(log[n])) && !t.IsDelete()
                && (q.id.Some? ==> t.id == q.id.value - gdiff)
              case Further(g) => Reached(answer, q.id, log[..n], MarksOf(log, q)[..n], g)
            }
  {
    KnownTag(log, n, q);
    TurnReached(log[..n + 1], MarksOf(log, q)[..n + 1], q.id, gdiff, answer, SpliceOf(log[n].tag.kind));
    assert log[..n + 1][..n] == log[..n] && MarksOf(log, q)[..n + 1][..n] == MarksOf(log, q)[..n];
  }

  /** One turn of the walk. */
  lemma WalkTurn(block: seq<Byte>, off: nat, ntag: Word, log: seq<Rec>, q: Query, front: seq<Rec>, gdiff: int,
                 answer: Option<Value>)
    requires AllOnDisk(log) && PlainCreates(log) && AsksForAttr(q)
    requires Walking(block, off, ntag, log, q, front, gdiff, answer) && off >= 4 + Unpack(ntag).DSize()
    ensures front != []
    ensures var t, at := Unpack(ntag), off - Unpack(ntag).DSize();
            match TurnOf(t, SpliceOf(t.kind), Alike(q.kmask, q.kind, t.kind), q.id, gdiff) {
              case NotThere => Live(answer) == None
              case Here =>
                && answer == Some(Value(t.kind, t.size, block[at + 4..off])) && !t.IsDelete()
                && (q.id.Some? ==> t.id + gdiff == q.id.value) && (q.id == None ==> gdiff == 0)
              case Further(g) =>
                Walking(block, at, Masked(Xor(BeAt(block, at), ntag)), log, q, front[..|front| - 1], g, answer)
            }
  {
    var n := |front| - 1;
    LastOf(block, off, ntag, front);
    assert front == log[..n + 1] && front[n] == log[n] && front[..n] == log[..n];
    TurnInLog(log, q, n, gdiff, answer);
  }

  /** The id a lookup is after stays within its field. */
  predicate Fitting(asked: Option<nat>, front: seq<Rec>, gdiff: int) {
    asked.Some? ==> 0 <= asked.value - gdiff < 1024 && IdsFit(front, asked.value - gdiff)
  }

  lemma TurnFits(log: seq<Rec>, q: Query, front: seq<Rec>, gdiff: int)
    requires AllOnDisk(log) && PlainCreates(log) && AsksForAttr(q)
    requires front != [] && front <= log && Fitting(q.id, front, gdiff)
    ensures var n := |front| - 1;
            var t := front[n].tag;
            match TurnOf(t, SpliceOf(t.kind), Alike(q.kmask, q.kind, t.kind), q.id, gdiff) {
              case NotThere => true
              case Here => true
              case Further(g) => Fitting(q.id, front[..n], g)
            }
  {
    hide SpliceOf, Alike, AllOnDisk, PlainCreates, AsksForAttr;
    var n := |front| - 1;
    assert front[n] == log[n];
    KnownTag(log, n, q);
    if q.id.Some? {
      assert Before(front[n], q.id.value - gdiff).Some? ==>
        IdsFit(front[..n], Before(front[n], q.id.value - gdiff).value);
    }
  }

  /** The walk at its end. */
  lemma WalkEnds(block: seq<Byte>, off: nat, ntag: Word, log: seq<Rec>, q: Query, front: seq<Rec>, gdiff: int,
                 answer: Option<Value>)
    requires Walking(block, off, ntag, log, q, front, gdiff, answer) && off < 4 + Unpack(ntag).DSize()
    ensures answer == None
  {
    LastOf(block, off, ntag, front);
  }

  lemma WalkStarts(block: seq<Byte>, off: nat, etag: Word, log: seq<Rec>, hidden: Option<nat>, q: Query)
    requires off <= |block| && Encodes(block, off, etag, log) && AsksForAttr(q)
    ensures Walking(block, off, etag, log, q, log,
                    if q.id.Some? && hidden.Some? && hidden.value <= q.id.value then -1 else 0, Meaning(log, hidden, q))
  {
    StartsReached(log, hidden, q);
    assert MarksOf(log, q)[..|log|] == MarksOf(log, q);
  }

  lemma WalkTag(block: seq<Byte>, off: nat, ntag: Word, log: seq<Rec>, q: Query, front: seq<Rec>, gdiff: int,
                answer: Option<Value>)
    requires Walking(block, off, ntag, log, q, front, gdiff, answer) && off >= 4 + Unpack(ntag).DSize()
    ensures front != [] && front <= log && front[|front| - 1].tag == Unpack(ntag)
  {
    LastOf(block, off, ntag, front);
  }

  lemma StartsFitting(log: seq<Rec>, hidden: Option<nat>, q: Query)
    requires QueryFits(log, hidden, q)
    ensures Fitting(q.id, log, if q.id.Some? && hidden.Some? && hidden.value <= q.id.value then -1 else 0)
  {
    if q.id.Some? && hidden.Some? {
      assert Visible(log, hidden)[..|log|] == log;
    }
  }

  /** The tag before the one at off. */
  method PreviousTag(block: array<Byte>, off: nat, tag: Word) returns (ptag: Word)
    requires off + 4 <= block.Length
    ensures ptag == Masked(Xor(BeAt(block[..], off), tag))
  {
    var word := FromBe(block[off..off + 4]);
    assert block[..][off..off + 4] == block[off..off + 4];
    ptag := Masked(Xor(word, tag));
  }

  /**
   * A slice from goff, for a value that the log gives and that lies at some place of the block: from there on as many
   * bytes of the block as the value and the buffer have, then zeros; LFS_ERR_CORRUPT if these leave the block.
   */
  predicate Sliced(block: seq<Byte>, at: nat, v: Option<Value>, id: nat, goff: nat, gsize: nat, r: Lookup) {
    match Live(v)
    case None => r == NoEnt
    case Some(w) =>
      var n := Min(w.size, gsize);
      && |w.data| == w.size && at + w.size <= |block| && w.data == block[at..at + w.size]
      && r == if at + goff + n > |block| then Corrupt
              else Got(Tag(w.kind, id, w.size), block[at + goff..at + goff + n] + seq(gsize - n, _ => Byte(0)))
  }

  /** The id in an answer: the one asked for, if there was one. */
  function AnswerId(q: Query, r: Lookup): nat {
    if q.id.Some? then q.id.value else if r.Got? then r.tag.id else 0
  }

  /** Byte by byte, a slice is what lies on the block where the value does, and zero behind the value or the buffer. */
  lemma SlicedBytes(block: seq<Byte>, at: nat, v: Option<Value>, id: nat, goff: nat, gsize: nat, r: Lookup)
    requires Sliced(block, at, v, id, goff, gsize, r) && r.Got?
    ensures v.Some? && !v.value.Deleted() && |r.data| == gsize && r.tag == Tag(v.value.kind, id, v.value.size)
    ensures forall j | 0 <= j < gsize ::
              if j < v.value.size then at + goff + j < |block| && r.data[j] == block[at + goff + j]
              else r.data[j] == Byte(0)
  {
  }

  /** From the start of an attribute the slice is the value, cut or filled up. */
  lemma SlicedFromStart(block: seq<Byte>, at: nat, v: Option<Value>, id: nat, gsize: nat, r: Lookup)
    requires Sliced(block, at, v, id, 0, gsize, r)
    ensures r == Answer(v, id, gsize)
  {
    if r.Got? {
      var n := Min(v.value.size, gsize);
      var data := block[at..at + v.value.size];
      forall j | 0 <= j < n ensures data[..n][j] == block[at..at + n][j] {
        assert data[j] == block[at + j];
      }
      assert r.data == ZeroExtended(v.value.data, gsize);
    }
  }

  /** A slice that stays within the value is just that. */
  lemma SlicedInside(block: seq<Byte>, at: nat, v: Option<Value>, id: nat, goff: nat, gsize: nat, r: Lookup)
    requires Sliced(block, at, v, id, goff, gsize, r) && Live(v).Some? && goff + gsize <= v.value.size
    ensures r.Got? && goff + gsize <= |v.value.data| && r.data == v.value.data[goff..goff + gsize]
  {
    var data := block[at..at + v.value.size];
    var want := data[goff..goff + gsize];
    assert r.data == block[at + goff..at + goff + gsize];
    forall j | 0 <= j < gsize ensures want[j] == r.data[j] {
      assert data[goff + j] == block[at + goff + j];
    }
  }

  lemma NothingSliced(block: seq<Byte>, v: Option<Value>, id: nat, goff: nat, gsize: nat)
    requires Live(v) == None
    ensures Sliced(block, 0, v, id, goff, gsize, NoEnt)
  {
  }

  lemma AnyId(block: seq<Byte>, at: nat, v: Option<Value>, id: nat, other: nat, goff: nat, gsize: nat, r: Lookup)
    requires Sliced(block, at, v, id, goff, gsize, r)
    ensures r.Got? ==> r.tag.id == id
    ensures !r.Got? || other == id ==> Sliced(block, at, v, other, goff, gsize, r)
  {
  }

  lemma NothingLive()
    ensures Live(None) == None
  {
  }

  /** The slice of the value behind a tag. */
  method TakeValue(block: array<Byte>, at: nat, t: Tag, id: nat, goff: nat, gsize: nat) returns (r: Lookup)
    requires at + t.size <= block.Length && !t.IsDelete()
    ensures Sliced(block[..], at, Some(Value(t.kind, t.size, block[..][at..at + t.size])), id, goff, gsize, r)
  {
    var diff := Min(t.size, gsize);
    if at + goff + diff > block.Length {
      return Corrupt;
    }
    var data := block[at + goff..at + goff + diff];
    r := Got(t.(id := id), data + seq(gsize - diff, _ => Byte(0)));
  }

  /**
   * lfs_dir_getslice. hidden is the id of the entry that lfs_gstate_hasmovehere finds moved away. The value it slices
   * is the one of the forward replay, for every query.
   */
  method GetSlice(block: array<Byte>, off0: nat, etag: Word, hidden: Option<nat>, q: Query, goff: nat, gsize: nat,
                  ghost log: seq<Rec>) returns (r: Lookup)
    requires off0 <= block.Length && Encodes(block[..], off0, etag, log)
    requires AllOnDisk(log) && PlainCreates(log) && AsksForAttr(q) && QueryFits(log, hidden, q)
    ensures exists at: nat :: Sliced(block[..], at, Meaning(log, hidden, q), AnswerId(q, r), goff, gsize, r)
  {
    hide Walking, AsksForAttr, Meaning, AllOnDisk, PlainCreates, Encodes, Alike, SpliceOf, TurnOf, Masked, Unpack, Xor,
         IdsFit, Visible, Fitting, Sliced, Live;
    var off: nat, ntag, gdiff := off0, etag, 0;
    if q.id.Some? && hidden.Some? && hidden.value <= q.id.value {
      gdiff := gdiff - 1;
    }
    ghost var front, answer := log, Meaning(log, hidden, q);
    WalkStarts(block[..], off, ntag, log, hidden, q);
    StartsFitting(log, hidden, q);
    while off >= 4 + Unpack(ntag).DSize()
      invariant Walking(block[..], off, ntag, log, q, front, gdiff, answer) && Fitting(q.id, front, gdiff)
      decreases off
    {
      var t := Unpack(ntag);
      WalkTurn(block[..], off, ntag, log, q, front, gdiff, answer);
      WalkTag(block[..], off, ntag, log, q, front, gdiff, answer);
      TurnFits(log, q, front, gdiff);
      front := front[..|front| - 1];
      off := off - t.DSize();
      ntag := PreviousTag(block, off, ntag);
      match TurnOf(t, SpliceOf(t.kind), Alike(q.kmask, q.kind, t.kind), q.id, gdiff)
      case NotThere =>
        r := NoEnt;
        NothingSliced(block[..], answer, AnswerId(q, r), goff, gsize);
        return;
      case Here =>
        r := TakeValue(block, off + 4, t, t.id + gdiff, goff, gsize);
        AnyId(block[..], off + 4, answer, t.id + gdiff, AnswerId(q, r), goff, gsize, r);
        return;
      case Further(g) => gdiff := g;
    }
    WalkEnds(block[..], off, ntag, log, q, front, gdiff, answer);
    NothingLive();
    r := NoEnt;
    NothingSliced(block[..], answer, AnswerId(q, r), goff, gsize);
  }
}
