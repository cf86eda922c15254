/**
 * Writing a metadata block: lfs_dir_commitattr chains tags onto the log, lfs_dir_commitcrc closes the commit and pads
 * it to a program unit. What a commit writes is exactly what a fetch reads back.
 */
module Commit {
  import opened Arith
  import opened Words
  import opened Tags
  import opened Log
  import opened Checksum
  import opened Fetch

  // ---- Attributes ----

  /** Some bytes written over a block. */
  function Put(block: seq<Byte>, off: nat, bytes: seq<Byte>): (r: seq<Byte>)
    requires off + |bytes| <= |block|
    ensures |r| == |block|
    ensures r[..off] == block[..off] && r[off..off + |bytes|] == bytes && r[off + |bytes|..] == block[off + |bytes|..]
  {
    block[..off] + bytes + block[off + |bytes|..]
  }

  lemma PutTwice(block: seq<Byte>, off: nat, x: seq<Byte>, y: seq<Byte>)
    requires off + |x| + |y| <= |block|
    ensures Put(Put(block, off, x), off + |x|, y) == Put(block, off, x + y)
  {
    var p := Put(block, off, x);
    assert p[..off + |x|] == block[..off] + x;
  }

  /** A tag that a caller may commit: it fits its fields and is not one of the closing CRC tags. */
  predicate Committable(r: Rec) {
    && r.tag.Fits() && |r.data| == r.tag.DataSize()
    && Type1(r.tag.kind) != TYPE_CRC && WellSized(r)
  }

  predicate AllCommittable(recs: seq<Rec>) { forall i | 0 <= i < |recs| :: Committable(recs[i]) }

  /** The bytes of one tag: the tag exclusive-or its predecessor, big-endian, then its data. */
  function EncodeRec(r: Rec, ptag: Word): (s: seq<Byte>)
    requires Committable(r)
    ensures |s| == r.tag.DSize()
  {
    ToBe(Xor(Pack(r.tag), ptag)) + r.data
  }

  function Encode(recs: seq<Rec>, ptag: Word): seq<Byte>
    requires AllCommittable(recs)
    decreases |recs|
  {
    if recs == [] then [] else EncodeRec(recs[0], ptag) + Encode(recs[1..], Pack(recs[0].tag))
  }

  /** The pair stored by a tail tag. */
  function TailOf(data: seq<Byte>): Pair
    requires |data| == 8
  {
    Pair(FromLe(data[..4]), FromLe(data[4..]))
  }

  /** The scan after it has read one committed tag. */
  function AdvanceOne(st: State, r: Rec): State
    requires Committable(r)
  {
    var isTail := Type1(r.tag.kind) == TYPE_TAIL;
    State(st.off + r.tag.DSize(), Pack(r.tag), Crc(st.crc, EncodeRec(r, st.ptag)), st.log + [r],
          if isTail then TailOf(r.data) else st.tail, if isTail then r.tag.kind & 1 != 0 else st.split, st.best)
  }

  function Advance(st: State, recs: seq<Rec>): (r: State)
    requires AllCommittable(recs)
    ensures r.off == st.off + |Encode(recs, st.ptag)|
    decreases |recs|
  {
    if recs == [] then st else Advance(AdvanceOne(st, recs[0]), recs[1..])
  }

  /** The word that the tag after some records is chained to. */
  function LastTag(recs: seq<Rec>, ptag: Word): Word
    requires AllCommittable(recs)
  {
    if recs == [] then ptag else Pack(recs[|recs| - 1].tag)
  }

  lemma {:induction false} AdvanceShape(st: State, recs: seq<Rec>)
    requires AllCommittable(recs)
    ensures Advance(st, recs).best == st.best
    ensures Advance(st, recs).log == st.log + recs && Advance(st, recs).ptag == LastTag(recs, st.ptag)
    decreases |recs|
  {
    if recs != [] {
      AdvanceShape(AdvanceOne(st, recs[0]), recs[1..]);
      assert (st.log + [recs[0]]) + recs[1..] == st.log + recs;
    } else {
      assert st.log + recs == st.log;
    }
  }

  lemma {:induction false} AdvanceCrc(st: State, recs: seq<Rec>)
    requires AllCommittable(recs)
    ensures Advance(st, recs).crc == Crc(st.crc, Encode(recs, st.ptag))
    decreases |recs|
  {
    if recs != [] {
      var s := AdvanceOne(st, recs[0]);
      AdvanceCrc(s, recs[1..]);
      CrcConcat(st.crc, EncodeRec(recs[0], st.ptag), Encode(recs[1..], s.ptag));
    }
  }

  /** A block holds some bytes at an offset. */
  predicate Holds(block: seq<Byte>, off: nat, bytes: seq<Byte>) {
    off + |bytes| <= |block| && block[off..off + |bytes|] == bytes
  }

  lemma HoldsConcat(block: seq<Byte>, off: nat, x: seq<Byte>, y: seq<Byte>)
    requires Holds(block, off, x + y)
    ensures Holds(block, off, x) && Holds(block, off + |x|, y)
  {
    var e := block[off..off + |x + y|];
    assert block[off..off + |x|] == e[..|x|];
    assert block[off + |x|..off + |x| + |y|] == e[|x|..];
  }

  lemma TagRoundTrip(t: Tag, ptag: Word)
    requires t.Fits()
    ensures Xor(FromBe(ToBe(Xor(Pack(t), ptag))), ptag) == Pack(t)
    ensures Unpack(Pack(t)) == t && IsValid(Pack(t))
  {
    WordRoundTrip(Xor(Pack(t), ptag));
    XorTwice(Pack(t), ptag);
    UnpackPack(t);
  }

  lemma AdvanceOneCrc(st: State, r: Rec)
    requires Committable(r)
    ensures AdvanceOne(st, r).crc == Crc(Crc(st.crc, ToBe(Xor(Pack(r.tag), st.ptag))), r.data)
  {
    CrcConcat(st.crc, ToBe(Xor(Pack(r.tag), st.ptag)), r.data);
  }

  lemma ReadsTag(block: seq<Byte>, off: nat, r: Rec, ptag: Word)
    requires Committable(r) && Holds(block, off, EncodeRec(r, ptag))
    ensures Bytes(block, off, off + 4) == ToBe(Xor(Pack(r.tag), ptag))
    ensures Bytes(block, off + 4, off + r.tag.DSize()) == r.data
    ensures off + r.tag.DSize() <= |block|
  {
    HoldsConcat(block, off, ToBe(Xor(Pack(r.tag), ptag)), r.data);
  }

  lemma ReadsTail(block: seq<Byte>, off: nat, data: seq<Byte>)
    requires |data| == 8 && Holds(block, off, data)
    ensures Bytes(block, off, off + 4) == data[..4] && Bytes(block, off + 4, off + 8) == data[4..]
  {
    assert data == data[..4] + data[4..];
    HoldsConcat(block, off, data[..4], data[4..]);
  }

  lemma DecideAdvances(size: nat, prog: nat, st: State, r: Rec, l: Look)
    requires prog > 0 && Committable(r) && st.off + r.tag.DSize() <= size
    requires l.tag == Pack(r.tag) && l.head == ToBe(Xor(Pack(r.tag), st.ptag)) && l.data == r.data
    requires Type1(r.tag.kind) == TYPE_TAIL ==> l.low == r.data[..4] && l.high == r.data[4..]
    ensures Decide(size, prog, st, l) == Go(AdvanceOne(st, r))
  {
    UnpackPack(r.tag);
    AdvanceOneCrc(st, r);
    assert Rec(r.tag, r.data) == r;
  }

  lemma LooksLike(block: seq<Byte>, off: nat, t: Tag, ptag: Word)
    requires t.Fits() && Bytes(block, off, off + 4) == ToBe(Xor(Pack(t), ptag))
    ensures LookAt(block, off, ptag) ==
            Look(Pack(t), ToBe(Xor(Pack(t), ptag)), Bytes(block, off + 4, off + t.DSize()),
                 Bytes(block, off + 4, off + 8), Bytes(block, off + 8, off + 12))
  {
    TagRoundTrip(t, ptag);
  }

  lemma ScanGo(block: seq<Byte>, prog: nat, st: State, next: State)
    requires prog > 0 && Step(block, prog, st) == Go(next)
    ensures Scan(block, prog, st) == Scan(block, prog, next)
  {
  }

  /** A scan reads one committed tag as it was written. */
  lemma StepReadsRec(block: seq<Byte>, prog: nat, st: State, r: Rec)
    requires prog > 0 && Committable(r) && Holds(block, st.off, EncodeRec(r, st.ptag))
    ensures Step(block, prog, st) == Go(AdvanceOne(st, r))
  {
    hide Decide, LookAt, Crc, Xor, Unpack, Pack, EncodeRec, AdvanceOne;
    ReadsTag(block, st.off, r, st.ptag);
    if Type1(r.tag.kind) == TYPE_TAIL {
      ReadsTail(block, st.off + 4, r.data);
    }
    LooksLike(block, st.off, r.tag, st.ptag);
    DecideAdvances(|block|, prog, st, r, LookAt(block, st.off, st.ptag));
  }

  lemma HoldsFirst(block: seq<Byte>, off: nat, recs: seq<Rec>, ptag: Word)
    requires AllCommittable(recs) && recs != [] && Holds(block, off, Encode(recs, ptag))
    ensures Holds(block, off, EncodeRec(recs[0], ptag))
    ensures Holds(block, off + recs[0].tag.DSize(), Encode(recs[1..], Pack(recs[0].tag)))
  {
    HoldsConcat(block, off, EncodeRec(recs[0], ptag), Encode(recs[1..], Pack(recs[0].tag)));
  }

  lemma {:induction false} ScanReadsRecs(block: seq<Byte>, prog: nat, st: State, recs: seq<Rec>)
    requires prog > 0 && AllCommittable(recs) && Holds(block, st.off, Encode(recs, st.ptag))
    ensures Scan(block, prog, st) == Scan(block, prog, Advance(st, recs))
    decreases |recs|
  {
    hide Scan, Step, Crc, EncodeRec, LookAt, Decide, Holds, Committable, Type1;
    if recs != [] {
      var next := AdvanceOne(st, recs[0]);
      HoldsFirst(block, st.off, recs, st.ptag);
      StepReadsRec(block, prog, st, recs[0]);
      ScanGo(block, prog, st, next);
      ScanReadsRecs(block, prog, next, recs[1..]);
    }
  }

  // ---- The closing CRC tags ----

  /** Where the CRC tag at off ends: as far as its size field reaches, but never leaving less than 8 bytes. */
  function FooterEnd(off: nat, end: nat): (noff: nat)
    requires off + 8 <= end
    ensures off + 8 <= noff <= end && noff - (off + 4) <= 0x3fe
    ensures noff == end || end - noff >= 8
  {
    var o := off + 4;
    var n := Min(end - o, 0x3fe) + o;
    if n < end then Min(n, end - 8) else n
  }

  /** Whether the first bit of the next program unit reads as 0, so that the next tag's valid bit must be inverted. */
  predicate NeedsReset(block: seq<Byte>, noff: nat) {
    noff + 4 <= |block| && IsValid(BeAt(block, noff))
  }

  function FooterTag(block: seq<Byte>, off: nat, end: nat): (t: Tag)
    requires off + 8 <= end
    ensures t.Fits()
  {
    var noff := FooterEnd(off, end);
    Tag(if NeedsReset(block, noff) then 0x501 else TYPE_CRC, NO_ID, noff - (off + 4))
  }

  /** A CRC tag and the checksum of everything since the last one. */
  function FooterBytes(tag: Word, ptag: Word, crc: Word): (s: seq<Byte>)
    ensures |s| == 8
  {
    var head := ToBe(Xor(tag, ptag));
    head + ToLe(Crc(crc, head))
  }

  /** One CRC tag and its checksum; the padding up to the next tag keeps what the block holds. */
  function PutFooter(block: seq<Byte>, off: nat, ptag: Word, crc: Word, end: nat): (r: seq<Byte>)
    requires off + 8 <= end <= |block|
    ensures |r| == |block|
  {
    Put(block, off, FooterBytes(Pack(FooterTag(block, off, end)), ptag, crc))
  }

  /** A closed block and the word the next commit is chained to. */
  datatype Closed = Closed(block: seq<Byte>, ptag: Word)

  /** Everything lfs_dir_commitcrc writes. */
  function Close(block: seq<Byte>, off: nat, ptag: Word, crc: Word, end: nat): (r: Closed)
    requires off == end || off + 8 <= end
    requires end <= |block|
    ensures |r.block| == |block|
    decreases end - off
  {
    if off == end then Closed(block, ptag)
    else
      var tag := Pack(FooterTag(block, off, end));
      Close(PutFooter(block, off, ptag, crc, end), FooterEnd(off, end), Chain(tag), INIT, end)
  }

  lemma CloseStep(block: seq<Byte>, off: nat, ptag: Word, crc: Word, end: nat)
    requires off + 8 <= end <= |block|
    ensures var noff := FooterEnd(off, end);
            Close(block, off, ptag, crc, end) ==
            Close(PutFooter(block, off, ptag, crc, end), noff, Chain(Pack(FooterTag(block, off, end))), INIT, end)
  {
  }

  lemma CloseDone(block: seq<Byte>, ptag: Word, crc: Word, end: nat)
    requires end <= |block|
    ensures Close(block, end, ptag, crc, end) == Closed(block, ptag)
  {
  }

  /** Closing writes only between the attributes and the aligned end. */
  lemma {:induction false} CloseFrame(block: seq<Byte>, off: nat, ptag: Word, crc: Word, end: nat)
    requires off == end || off + 8 <= end
    requires end <= |block|
    ensures Close(block, off, ptag, crc, end).block[..off] == block[..off]
    ensures Close(block, off, ptag, crc, end).block[end..] == block[end..]
    decreases end - off
  {
    hide FooterTag, FooterBytes, Chain, Pack, Crc, NeedsReset;
    if off < end {
      var b, noff := PutFooter(block, off, ptag, crc, end), FooterEnd(off, end);
      CloseFrame(b, noff, Chain(Pack(FooterTag(block, off, end))), INIT, end);
      var c := Close(block, off, ptag, crc, end).block;
      assert c[..off] == c[..noff][..off] == b[..off];
      assert b[end..] == b[off + 8..][end - (off + 8)..] == block[off + 8..][end - (off + 8)..];
    }
  }

  /** What the first CRC tag of a closed block reads as. */
  lemma CloseHead(block: seq<Byte>, off: nat, ptag: Word, crc: Word, end: nat)
    requires off + 8 <= end <= |block|
    ensures Holds(Close(block, off, ptag, crc, end).block, off,
            FooterBytes(Pack(FooterTag(block, off, end)), ptag, crc))
  {
    var tag := Pack(FooterTag(block, off, end));
    var b, noff := PutFooter(block, off, ptag, crc, end), FooterEnd(off, end);
    var c := Close(b, noff, Chain(tag), INIT, end).block;
    CloseFrame(b, noff, Chain(tag), INIT, end);
    SameSlice(c, b, off, off + 8, noff);
  }

  lemma CrcKinds()
    ensures Type1(0x501) == TYPE_CRC && Type1(TYPE_CRC) == TYPE_CRC
    ensures Resets(0x501) && !Resets(TYPE_CRC)
  {
  }

  /** Some CRC tags: they mean nothing to the directory. */
  predicate AllCrc(recs: seq<Rec>) {
    forall i | 0 <= i < |recs| :: Type1(recs[i].tag.kind) == TYPE_CRC && WellSized(recs[i])
  }

  predicate OnlyCrcs(recs: seq<Rec>) { forall i | 0 <= i < |recs| :: Type1(recs[i].tag.kind) == TYPE_CRC }

  lemma DecideSeals(size: nat, prog: nat, st: State, t: Tag, l: Look)
    requires prog > 0 && t.Fits() && Type1(t.kind) == TYPE_CRC && st.off + t.DSize() <= size
    requires l.tag == Pack(t) && l.head != [] && l.low == ToLe(Crc(st.crc, l.head))
    ensures Decide(size, prog, st, l) == Go(Seal(st, st.off + t.DSize(), l.tag, Rec(t, l.data)))
  {
    UnpackPack(t);
    WordRoundTrip(Crc(st.crc, l.head));
  }

  /** The scan just past the CRC tag at st.off of a closed block c. */
  function PastFooter(c: seq<Byte>, st: State, t: Tag, noff: nat): State
    requires t.Fits()
  {
    Seal(st, noff, Pack(t), Rec(t, Bytes(c, st.off + 4, noff)))
  }

  lemma ReadsFooter(block: seq<Byte>, off: nat, tag: Word, ptag: Word, crc: Word)
    requires Holds(block, off, FooterBytes(tag, ptag, crc))
    ensures Bytes(block, off, off + 4) == ToBe(Xor(tag, ptag))
    ensures Bytes(block, off + 4, off + 8) == ToLe(Crc(crc, ToBe(Xor(tag, ptag))))
  {
    HoldsConcat(block, off, ToBe(Xor(tag, ptag)), ToLe(Crc(crc, ToBe(Xor(tag, ptag)))));
  }

  lemma LooksLikeFooter(block: seq<Byte>, off: nat, t: Tag, ptag: Word, crc: Word)
    requires t.Fits() && Holds(block, off, FooterBytes(Pack(t), ptag, crc))
    ensures var l := LookAt(block, off, ptag);
            && l.tag == Pack(t) && l.head != [] && l.low == ToLe(Crc(crc, l.head))
            && l.data == Bytes(block, off + 4, off + t.DSize())
  {
    ReadsFooter(block, off, Pack(t), ptag, crc);
    LooksLike(block, off, t, ptag);
  }

  /** A scan accepts the CRC tag it meets and moves to the next. */
  lemma StepReadsFooter(block: seq<Byte>, prog: nat, st: State, t: Tag)
    requires prog > 0 && t.Fits() && Type1(t.kind) == TYPE_CRC && st.off + t.DSize() <= |block|
    requires Holds(block, st.off, FooterBytes(Pack(t), st.ptag, st.crc))
    ensures Step(block, prog, st) == Go(PastFooter(block, st, t, st.off + t.DSize()))
  {
    hide Decide, LookAt, Holds, FooterBytes, Crc, Seal, Xor, Unpack, Pack, Type1;
    LooksLikeFooter(block, st.off, t, st.ptag, st.crc);
    DecideSeals(|block|, prog, st, t, LookAt(block, st.off, st.ptag));
  }

  // ---- A scan of a closed commit ----

  lemma InvalidNext(word: Word, tag: Word, ptag: Word)
    requires IsValid(tag) && ptag == (if IsValid(word) then Flip(tag) else tag)
    ensures !IsValid(Xor(word, ptag))
  {
  }

  lemma FlipKeepsFields(w: Word)
    ensures Unpack(Flip(w)) == Unpack(w)
  {
    FlipMasked(w);
    FieldsIgnoreValidBit(Flip(w), w);
  }

  lemma FlipMasked(w: Word)
    ensures Masked(Flip(w)) == Masked(w)
  {
  }

  /** What the tag after a CRC tag is chained to. */
  lemma ChainOfFooter(block: seq<Byte>, off: nat, end: nat)
    requires off + 8 <= end
    ensures var t := FooterTag(block, off, end);
            && Chain(Pack(t)) == (if NeedsReset(block, FooterEnd(off, end)) then Flip(Pack(t)) else Pack(t))
            && Type1(t.kind) == TYPE_CRC && Unpack(Chain(Pack(t))) == t && IsValid(Pack(t))
  {
    var t := FooterTag(block, off, end);
    CrcKinds();
    UnpackPack(t);
    FlipKeepsFields(Pack(t));
  }

  /** The directory state a closed commit leaves: the attributes, then only CRC tags. */
  predicate ClosedState(f: Found, st: State, end: nat, etag: Word) {
    && f.off == end && f.etag == etag && f.tail == st.tail && f.split == st.split
    && |f.log| >= |st.log| && f.log[..|st.log|] == st.log && AllCrc(f.log[|st.log|..])
    && Type1(Unpack(etag).kind) == TYPE_CRC
  }

  lemma FooterSize(block: seq<Byte>, off: nat, end: nat)
    requires off + 8 <= end
    ensures off + FooterTag(block, off, end).DSize() == FooterEnd(off, end)
    ensures Type1(FooterTag(block, off, end).kind) == TYPE_CRC
    ensures forall data :: WellSized(Rec(FooterTag(block, off, end), data))
  {
    CrcKinds();
  }

  lemma ScanReadsFooter(c: seq<Byte>, prog: nat, st: State, t: Tag, noff: nat)
    requires prog > 0 && t.Fits() && Type1(t.kind) == TYPE_CRC && noff == st.off + t.DSize() <= |c|
    requires Holds(c, st.off, FooterBytes(Pack(t), st.ptag, st.crc))
    ensures Scan(c, prog, st) == Scan(c, prog, PastFooter(c, st, t, noff))
  {
    hide Scan, Step, Holds, FooterBytes, PastFooter, Type1, Pack;
    StepReadsFooter(c, prog, st, t);
    ScanGo(c, prog, st, PastFooter(c, st, t, noff));
  }

  lemma ClosedStateBack(f: Found, st: State, r: Rec, next: State, end: nat, etag: Word)
    requires next.log == st.log + [r] && next.tail == st.tail && next.split == st.split
    requires ClosedState(f, next, end, etag) && Type1(r.tag.kind) == TYPE_CRC && WellSized(r)
    ensures ClosedState(f, st, end, etag)
  {
    assert f.log[..|st.log|] == f.log[..|next.log|][..|st.log|] == next.log[..|st.log|];
    assert f.log[|st.log|] == f.log[..|next.log|][|st.log|] == r;
    assert f.log[|st.log|..] == [r] + f.log[|next.log|..];
  }

  /**
   * A scan that has read the attributes of a commit reads through its CRC tags to its end, and stops there because the
   * tag found in the next program unit can only be invalid.
   */
  lemma {:induction false} ScanReadsClose(block: seq<Byte>, prog: nat, st: State, end: nat)
    requires prog > 0 && st.off + 8 <= end <= |block|
    ensures var c := Close(block, st.off, st.ptag, st.crc, end);
            var r := Scan(c.block, prog, st);
            ClosedState(r.found, st, end, c.ptag) && r.erased == (end + 4 <= |block| && end % prog == 0)
    decreases end - st.off
  {
    hide Scan, Step, Crc, FooterTag, FooterBytes, FooterEnd, Close, PutFooter, ClosedState, WellSized, Type1, Chain,
         Pack, Holds;
    var t, noff := FooterTag(block, st.off, end), FooterEnd(st.off, end);
    var b := PutFooter(block, st.off, st.ptag, st.crc, end);
    var c := Close(block, st.off, st.ptag, st.crc, end);
    var next := PastFooter(c.block, st, t, noff);
    var r := Rec(t, Bytes(c.block, st.off + 4, noff));
    FooterSize(block, st.off, end);
    CloseHead(block, st.off, st.ptag, st.crc, end);
    ScanReadsFooter(c.block, prog, st, t, noff);
    ChainOfFooter(block, st.off, end);
    CloseStep(block, st.off, st.ptag, st.crc, end);
    if noff < end {
      ScanReadsClose(b, prog, next, end);
      ClosedStateBack(Scan(c.block, prog, next).found, st, r, next, end, c.ptag);
    } else {
      CloseDone(b, next.ptag, INIT, end);
      CloseFrame(block, st.off, st.ptag, st.crc, end);
      ScanStopsAtEnd(block, c.block, prog, next, Pack(t), end);
      assert next.log[|next.log|..] == [];
      ClosedStateBack(next.best, st, r, next, end, c.ptag);
    }
  }

  lemma ScanStopsAtEnd(block: seq<Byte>, c: seq<Byte>, prog: nat, st: State, tag: Word, end: nat)
    requires prog > 0 && st.off == end == st.best.off && end <= |block| == |c| && c[end..] == block[end..]
    requires IsValid(tag) && st.ptag == (if NeedsReset(block, end) then Flip(tag) else tag)
    requires Type1(Unpack(st.ptag).kind) == TYPE_CRC
    ensures Scan(c, prog, st) == Result(st.best, end + 4 <= |block| && end % prog == 0)
  {
    if end + 4 <= |block| {
      assert c[end..end + 4] == c[end..][..4] == block[end..][..4] == block[end..end + 4];
      InvalidNext(BeAt(block, end), tag, st.ptag);
    }
  }

  // ---- Main results on committing ----

  /** The aligned end of a commit whose attributes end at off. */
  function CommitEnd(off: nat, prog: nat): (end: nat)
    requires prog > 0
    ensures end >= off + 8 && end % prog == 0
  {
    AlignUp(off + 8, prog)
  }

  /** A block after one commit made where a scan stands: the attributes, then the closing CRC tags. */
  function Committed(block: seq<Byte>, st: State, recs: seq<Rec>, prog: nat): (c: Closed)
    requires AllCommittable(recs) && prog > 0 && CommitEnd(Advance(st, recs).off, prog) <= |block|
    ensures |c.block| == |block|
  {
    var e := Advance(st, recs);
    Close(Put(block, st.off, Encode(recs, st.ptag)), e.off, e.ptag, e.crc, CommitEnd(e.off, prog))
  }

  lemma CommittedFrame(block: seq<Byte>, st: State, recs: seq<Rec>, prog: nat)
    requires AllCommittable(recs) && prog > 0 && CommitEnd(Advance(st, recs).off, prog) <= |block|
    ensures Committed(block, st, recs, prog).block[..st.off] == block[..st.off]
    ensures Holds(Committed(block, st, recs, prog).block, st.off, Encode(recs, st.ptag))
  {
    var e := Advance(st, recs);
    var b := Put(block, st.off, Encode(recs, st.ptag));
    CloseFrame(b, e.off, e.ptag, e.crc, CommitEnd(e.off, prog));
    var c := Committed(block, st, recs, prog).block;
    SameSlice(c, b, 0, st.off, e.off);
    SameSlice(c, b, st.off, e.off, e.off);
  }

  /** A scan that stands where a commit was written reads the whole commit. */
  lemma ScanReadsCommit(block: seq<Byte>, prog: nat, st: State, recs: seq<Rec>)
    requires AllCommittable(recs) && prog > 0 && CommitEnd(Advance(st, recs).off, prog) <= |block|
    ensures var c, e := Committed(block, st, recs, prog), Advance(st, recs);
            var r := Scan(c.block, prog, st);
            var end := CommitEnd(e.off, prog);
            ClosedState(r.found, e, end, c.ptag) && r.erased == (end + 4 <= |block|)
  {
    var c, e := Committed(block, st, recs, prog), Advance(st, recs);
    CommittedFrame(block, st, recs, prog);
    ScanReadsRecs(c.block, prog, st, recs);
    ScanReadsClose(Put(block, st.off, Encode(recs, st.ptag)), prog, e, CommitEnd(e.off, prog));
  }

  /** A block that agrees with another up to its last commit is scanned from there. */
  lemma FetchResumes(block: seq<Byte>, other: seq<Byte>, prog: nat)
    requires 4 <= |block| == |other| && prog > 0
    requires var f := FetchBlock(block, prog).found;
             f.off > 0 && AllWellSized(f.log) && f.off <= |block| && other[..f.off] == block[..f.off]
    ensures FetchBlock(other, prog) == Scan(other, prog, Resume(FetchBlock(block, prog).found))
  {
    var f := FetchBlock(block, prog).found;
    ScanAdvances(block, prog, Start(block));
    SameSlice(other, block, 0, 4, f.off);
    ScanSharedPrefix(block, other, prog, Start(block));
  }

  /**
   * Append then fetch. After new attributes are committed behind the last commit of a block, a fetch recovers exactly
   * the old log followed by those attributes and CRC tags, the tail pointer they leave, the offset and the tag the
   * committer ended with; it stops at the end of the commit whatever the rest of the block holds, and finds that rest
   * erased unless the block is full.
   */
  lemma AppendThenFetch(block: seq<Byte>, prog: nat, recs: seq<Rec>)
    requires |block| >= 4 && prog > 0 && AllCommittable(recs)
    requires var f := FetchBlock(block, prog).found;
             f.off > 0 && AllWellSized(f.log) && CommitEnd(Advance(Resume(f), recs).off, prog) <= |block|
    ensures var st := Resume(FetchBlock(block, prog).found);
            var c, e := Committed(block, st, recs, prog), Advance(st, recs);
            var r := FetchBlock(c.block, prog);
            var end := CommitEnd(e.off, prog);
            ClosedState(r.found, e, end, c.ptag) && r.erased == (end + 4 <= |block|)
  {
    var st := Resume(FetchBlock(block, prog).found);
    CommittedFrame(block, st, recs, prog);
    FetchResumes(block, Committed(block, st, recs, prog).block, prog);
    ScanReadsCommit(block, prog, st, recs);
  }

  /** The scan of a block that agrees with a commit up to its first CRC tag goes past that tag. */
  lemma ScanPassesFirstFooter(block: seq<Byte>, torn: seq<Byte>, prog: nat, st: State, recs: seq<Rec>)
    requires |torn| == |block| && AllCommittable(recs) && prog > 0
    requires var e := Advance(st, recs);
             && CommitEnd(e.off, prog) <= |block|
             && torn[..e.off + 8] == Committed(block, st, recs, prog).block[..e.off + 8]
    ensures Advance(st, recs).log <= Scan(torn, prog, st).found.log
  {
    hide Scan, Step, Start, Crc, Encode, Close, Put, AdvanceOne, FooterTag, FooterBytes, Decide;
    var c, e := Committed(block, st, recs, prog).block, Advance(st, recs);
    var b, end := Put(block, st.off, Encode(recs, st.ptag)), CommitEnd(e.off, prog);
    CommittedFrame(block, st, recs, prog);
    SameSlice(torn, c, st.off, e.off, e.off + 8);
    ScanReadsRecs(torn, prog, st, recs);
    CloseHead(b, e.off, e.ptag, e.crc, end);
    SameSlice(torn, c, e.off, e.off + 8, e.off + 8);
    FooterSize(b, e.off, end);
    PassesFooter(torn, prog, e, FooterTag(b, e.off, end), FooterEnd(e.off, end));
  }

  lemma PassesFooter(block: seq<Byte>, prog: nat, st: State, t: Tag, noff: nat)
    requires prog > 0 && t.Fits() && Type1(t.kind) == TYPE_CRC && noff == st.off + t.DSize() <= |block|
    requires Holds(block, st.off, FooterBytes(Pack(t), st.ptag, st.crc))
    ensures st.log <= Scan(block, prog, st).found.log
  {
    ScanReadsFooter(block, prog, st, t, noff);
    ScanAdvances(block, prog, PastFooter(block, st, t, noff));
  }

  /**
   * Once the first CRC tag of a commit is on the block, the commit counts: any block that agrees that far is fetched
   * with the new attributes, even if the padding or the later CRC tags never reached it.
   */
  lemma FirstFooterDecides(block: seq<Byte>, torn: seq<Byte>, prog: nat, recs: seq<Rec>)
    requires 4 <= |block| == |torn| && prog > 0 && AllCommittable(recs)
    requires var f := FetchBlock(block, prog).found;
             && f.off > 0 && AllWellSized(f.log) && CommitEnd(Advance(Resume(f), recs).off, prog) <= |block|
             && var n := Advance(Resume(f), recs).off + 8;
                torn[..n] == Committed(block, Resume(f), recs, prog).block[..n]
    ensures var f := FetchBlock(block, prog).found; f.log + recs <= FetchBlock(torn, prog).found.log
  {
    hide Scan, Step, Start, Crc, Encode, Close, Put, AllWellSized, CommitEnd, AdvanceOne;
    var st := Resume(FetchBlock(block, prog).found);
    CommittedFrame(block, st, recs, prog);
    SameSlice(torn, Committed(block, st, recs, prog).block, 0, st.off, Advance(st, recs).off + 8);
    FetchResumes(block, torn, prog);
    ScanPassesFirstFooter(block, torn, prog, st, recs);
    AdvanceShape(st, recs);
  }
}
