/**
 * Power loss in the middle of a commit. Which bytes of a block decide whether a fetch sees the commit: the walk over
 * its tags either reaches a CRC tag whose stored checksum is the one of what precedes it, or the commit does not exist.
 */
module Torn {
  import opened Arith
  import opened Words
  import opened Tags
  import opened Log
  import opened Checksum
  import opened Fetch
  import opened Commit

  /** Where a walk over tags stands: the next tag, the word it is chained to, the checksum since the last CRC tag. */
  datatype Mark = Mark(off: nat, ptag: Word, crc: Word)

  function MarkOf(st: State): Mark { Mark(st.off, st.ptag, st.crc) }

  /** The tag at a mark. */
  function TagAt(block: seq<Byte>, m: Mark): Word
    requires m.off + 4 <= |block|
  {
    Xor(FromBe(block[m.off..m.off + 4]), m.ptag)
  }

  /** The mark behind a tag that fits in the block. */
  function Behind(block: seq<Byte>, m: Mark): Mark
    requires m.off + 4 <= |block| && m.off + Unpack(TagAt(block, m)).DSize() <= |block|
  {
    var n := m.off + Unpack(TagAt(block, m)).DSize();
    Mark(n, TagAt(block, m), Crc(Crc(m.crc, block[m.off..m.off + 4]), block[m.off + 4..n]))
  }

  /** The walk from a mark ends, at an invalid tag, at the end of the block or at a checksum that is wrong. */
  predicate Unsealed(block: seq<Byte>, m: Mark)
    decreases |block| - m.off
  {
    m.off + 4 > |block| ||
    var tag := TagAt(block, m);
    var kind := Unpack(tag).kind;
    || !IsValid(tag)
    || m.off + Unpack(tag).DSize() > |block|
    || (if Type1(kind) == TYPE_CRC
        then m.off + 8 > |block| || FromLe(block[m.off + 4..m.off + 8]) != Crc(m.crc, block[m.off..m.off + 4])
        else (Type1(kind) == TYPE_TAIL && m.off + 12 > |block|) || Unsealed(block, Behind(block, m)))
  }

  lemma BytesAre(block: seq<Byte>, i: nat, j: nat)
    ensures i <= j <= |block| ==> Bytes(block, i, j) == block[i..j]
    ensures i < j && j > |block| ==> Bytes(block, i, j) == []
  {
  }

  /** What one tag of a scan does to the walk. */
  lemma StepWalks(block: seq<Byte>, prog: nat, st: State)
    requires prog > 0
    ensures var o := Step(block, prog, st);
            if o.Stop? then Unsealed(block, MarkOf(st))
            else if Type1(Unpack(LookAt(block, st.off, st.ptag).tag).kind) == TYPE_CRC then
              !Unsealed(block, MarkOf(st)) && o.next == Resume(o.next.best) && o.next.off > st.off
            else
              && o.next.best == st.best && o.next.off > st.off
              && Unsealed(block, MarkOf(st)) == Unsealed(block, MarkOf(o.next))
  {
    hide Crc, Xor, FromBe, FromLe, Unpack, IsValid, Type1, Chain;
    var off, l := st.off, LookAt(block, st.off, st.ptag);
    BytesAre(block, off, off + 4);
    BytesAre(block, off + 4, off + 8);
    BytesAre(block, off + 8, off + 12);
    BytesAre(block, off + 4, off + Unpack(l.tag).DSize());
  }

  /** A scan finds nothing new exactly when the walk from where it stands is not sealed. */
  lemma {:induction false} UnsealedExactly(block: seq<Byte>, prog: nat, st: State)
    requires prog > 0 && st.best.off <= st.off
    ensures Scan(block, prog, st).found == st.best <==> Unsealed(block, MarkOf(st))
    decreases |block| - st.off
  {
    hide Step, Unsealed, LookAt, Unpack, Type1;
    StepWalks(block, prog, st);
    match Step(block, prog, st)
    case Stop(_) =>
    case Go(next) =>
      ScanStep(block, prog, st);
      ScanAdvances(block, prog, next);
      if next.best == st.best {
        UnsealedExactly(block, prog, next);
      }
  }

  /**
   * Torn commits are invisible. Whatever a block holds behind the end of its last commit, a fetch returns exactly the
   * state at that commit if and only if every CRC tag that the walk from there reaches has the wrong checksum.
   */
  lemma TornCommitExactly(whole: seq<Byte>, torn: seq<Byte>, prog: nat)
    requires prog > 0 && |whole| == |torn| >= 4
    requires var f := FetchBlock(whole, prog).found;
             f.off > 0 && f.off <= |whole| && whole[..f.off] == torn[..f.off] && AllWellSized(f.log)
    ensures var f := FetchBlock(whole, prog).found;
            && (FetchBlock(torn, prog).found == f <==> Unsealed(torn, Mark(f.off, f.etag, INIT)))
            && (FetchBlock(torn, prog).found != f ==>
                  FetchBlock(torn, prog).found.off > f.off && f.log <= FetchBlock(torn, prog).found.log)
  {
    hide Scan, Start, Unsealed;
    var f := FetchBlock(whole, prog).found;
    FetchResumes(whole, torn, prog);
    UnsealedExactly(torn, prog, Resume(f));
    ScanAdvances(torn, prog, Resume(f));
  }

  // ---- Whether what follows is erased ----

  /** The next tag behind the last commit is there to be read and reads as invalid, at the start of a program unit. */
  predicate EndsErased(block: seq<Byte>, prog: nat, f: Found)
    requires prog > 0
  {
    f.off > 0 && f.off % prog == 0 && f.off + 4 <= |block| && !IsValid(TagAt(block, Mark(f.off, f.etag, INIT)))
  }

  /** A scan stands right behind its last commit, or has passed a valid tag since, which was no CRC tag. */
  predicate OnTheWay(block: seq<Byte>, st: State) {
    var f := st.best;
    && (f.off > 0 ==> Type1(Unpack(f.etag).kind) == TYPE_CRC)
    && if st == Resume(f) && f.off > 0 then true
       else
         && Type1(Unpack(st.ptag).kind) != TYPE_CRC
         && (f.off > 0 ==> f.off + 4 <= |block| && IsValid(TagAt(block, Mark(f.off, f.etag, INIT))))
  }

  lemma ErasedStep(block: seq<Byte>, prog: nat, st: State)
    requires prog > 0 && OnTheWay(block, st)
    ensures match Step(block, prog, st)
            case Stop(erased) => erased <==> EndsErased(block, prog, st.best)
            case Go(next) => OnTheWay(block, next)
  {
    hide Crc, Xor, FromBe, FromLe, Unpack, IsValid, Type1, Chain;
    BytesAre(block, st.off, st.off + 4);
    ChainKind(LookAt(block, st.off, st.ptag).tag);
  }

  lemma {:induction false} ScanErased(block: seq<Byte>, prog: nat, st: State)
    requires prog > 0 && OnTheWay(block, st)
    ensures Scan(block, prog, st).erased <==> EndsErased(block, prog, Scan(block, prog, st).found)
    decreases |block| - st.off
  {
    hide Step, OnTheWay, EndsErased;
    ErasedStep(block, prog, st);
    match Step(block, prog, st)
    case Stop(_) =>
    case Go(next) =>
      ScanStep(block, prog, st);
      ScanErased(block, prog, next);
  }

  /**
   * A fetch takes what follows for erased exactly if it has found a commit that ends at a program unit, with a word
   * behind it that reads as invalid: a commit cut short behind its first tag is not taken for erased space.
   */
  lemma ErasedExactly(block: seq<Byte>, prog: nat)
    requires prog > 0 && |block| >= 4
    ensures var f := FetchBlock(block, prog).found;
            FetchBlock(block, prog).erased <==>
              && f.off > 0 && f.off % prog == 0 && f.off + 4 <= |block|
              && !IsValid(TagAt(block, Mark(f.off, f.etag, INIT)))
  {
    hide Scan, Xor, FromBe, Crc;
    BlankIsNoCrc();
    ScanErased(block, prog, Start(block));
  }

  lemma BlankIsNoCrc()
    ensures Type1(Unpack(BLANK).kind) != TYPE_CRC
  {
  }

  /** The first byte of a tag's word says whether it is valid. */
  lemma FirstByteDecides(a: seq<Byte>, b: seq<Byte>, ptag: Word)
    requires |a| == |b| == 4 && a[0] == b[0]
    ensures IsValid(Xor(FromBe(a), ptag)) == IsValid(Xor(FromBe(b), ptag))
  {
    hide FromBe;
    assert a == [a[0], a[1], a[2], a[3]] && b == [b[0], b[1], b[2], b[3]];
    FromBeFour(a[0], a[1], a[2], a[3]);
    FromBeFour(b[0], b[1], b[2], b[3]);
    TopByteDecides(a[0], a[1], a[2], a[3], b[1], b[2], b[3], ptag);
  }

  lemma TopByteDecides(x: Byte, a: Byte, b: Byte, c: Byte, d: Byte, e: Byte, f: Byte, ptag: Word)
    ensures IsValid(Xor(Append(Append(Append(Append(Word(0), x), a), b), c), ptag)) ==
            IsValid(Xor(Append(Append(Append(Append(Word(0), x), d), e), f), ptag))
  {
  }

  /** So as long as the first byte behind the last commit is as before, what follows is taken for erased as before. */
  lemma ErasedStays(block: seq<Byte>, torn: seq<Byte>, prog: nat)
    requires prog > 0 && 4 <= |block| == |torn|
    requires var f := FetchBlock(block, prog).found;
             && FetchBlock(torn, prog).found == f && f.off + 4 <= |block| && torn[f.off] == block[f.off]
    ensures FetchBlock(torn, prog).erased == FetchBlock(block, prog).erased
  {
    hide FetchBlock, IsValid, FromBe, Xor;
    var f := FetchBlock(block, prog).found;
    ErasedExactly(block, prog);
    ErasedExactly(torn, prog);
    FirstByteDecides(block[f.off..f.off + 4], torn[f.off..f.off + 4], f.etag);
  }

  // ---- Cut commits ----

  const ERASED: Byte := Byte(0xff)

  /** From some place on the block is as erased. */
  predicate ErasedFrom(block: seq<Byte>, k: nat) { forall i | k <= i < |block| :: block[i] == ERASED }

  /** Whether d bytes of some records and the CRC tag behind them end inside the word of a tag. */
  predicate InsideTag(recs: seq<Rec>, d: nat)
    decreases |recs|
  {
    if d < 4 then d > 0
    else recs != [] && d >= recs[0].tag.DSize() && InsideTag(recs[1..], d - recs[0].tag.DSize())
  }

  lemma ErasedWord(block: seq<Byte>, off: nat)
    requires off + 4 <= |block| && ErasedFrom(block, off)
    ensures FromBe(block[off..off + 4]) == BLANK
  {
    assert block[off..off + 4] == [ERASED, ERASED, ERASED, ERASED];
    FromBeFour(ERASED, ERASED, ERASED, ERASED);
    AllOnes();
  }

  lemma AllOnes()
    ensures Append(Append(Append(Append(Word(0), ERASED), ERASED), ERASED), ERASED) == BLANK
  {
  }

  lemma BlankNeverValid(ptag: Word)
    requires IsValid(ptag)
    ensures !IsValid(Xor(BLANK, ptag))
  {
  }

  /** Behind a tag, erased bytes end the walk. */
  lemma ErasedEnds(block: seq<Byte>, m: Mark)
    requires IsValid(m.ptag) && ErasedFrom(block, m.off)
    ensures Unsealed(block, m)
  {
    hide IsValid, Xor, Unpack, FromBe, Type1, Crc;
    if m.off + 4 <= |block| {
      ErasedWord(block, m.off);
      BlankNeverValid(m.ptag);
    }
  }

  /** A tag whose word is there and whose data may be cut, with nothing behind it. */
  lemma CutInData(block: seq<Byte>, m: Mark, t: Tag)
    requires t.Fits() && Type1(t.kind) != TYPE_CRC
    requires Holds(block, m.off, ToBe(Xor(Pack(t), m.ptag))) && ErasedFrom(block, m.off + t.DSize())
    ensures Unsealed(block, m)
  {
    hide IsValid, Xor, Unpack, Pack, FromBe, ToBe, Type1, Crc;
    TagRoundTrip(t, m.ptag);
    if m.off + t.DSize() <= |block| {
      ErasedEnds(block, Behind(block, m));
    }
  }

  lemma HoldsPart(block: seq<Byte>, off: nat, all: seq<Byte>, x: seq<Byte>, d: nat)
    requires d <= |all| && off + d <= |block| && block[off..off + d] == all[..d] && |x| <= d && all[..|x|] == x
    ensures Holds(block, off, x)
  {
    assert block[off..off + |x|] == block[off..off + d][..|x|] == all[..d][..|x|];
  }

  lemma PartBehind(block: seq<Byte>, off: nat, all: seq<Byte>, n: nat, d: nat)
    requires n <= d <= |all| && off + d <= |block| && block[off..off + d] == all[..d]
    ensures block[off + n..off + d] == all[n..][..d - n]
  {
    assert block[off + n..off + d] == block[off..off + d][n..] == all[..d][n..] == all[n..][..d - n];
  }

  /** A scan in front of a record that is there reads it, and so does the walk. */
  lemma WalkReadsRec(block: seq<Byte>, st: State, r: Rec)
    requires Committable(r) && Holds(block, st.off, EncodeRec(r, st.ptag)) && st.best.off <= st.off
    ensures Unsealed(block, MarkOf(st)) == Unsealed(block, MarkOf(AdvanceOne(st, r)))
  {
    hide Step, Scan, Unsealed, EncodeRec, Crc, Pack, Committable, Type1;
    StepReadsRec(block, 1, st, r);
    ScanGo(block, 1, st, AdvanceOne(st, r));
    UnsealedExactly(block, 1, st);
    UnsealedExactly(block, 1, AdvanceOne(st, r));
  }

  /**
   * Some records written up to byte d of their encoding, and nothing behind: unless the cut goes through the word of a
   * tag, the walk is not sealed. (d == 0 is of interest behind a tag only.)
   */
  lemma {:induction false} CutInRecs(block: seq<Byte>, st: State, recs: seq<Rec>, d: nat)
    requires AllCommittable(recs) && d <= |Encode(recs, st.ptag)| && st.off + d <= |block| && st.best.off <= st.off
    requires block[st.off..st.off + d] == Encode(recs, st.ptag)[..d] && ErasedFrom(block, st.off + d)
    requires !InsideTag(recs, d) && (d == 0 ==> IsValid(st.ptag))
    ensures Unsealed(block, MarkOf(st))
    decreases |recs|
  {
    hide Unsealed, IsValid, Xor, Pack, ToBe, Type1, Crc, Committable, Holds, AdvanceOne, EncodeRec;
    if d == 0 {
      ErasedEnds(block, MarkOf(st));
    } else {
      var r, all := recs[0], Encode(recs, st.ptag);
      var n := r.tag.DSize();
      RecordParts(r, st.ptag);
      assert all == EncodeRec(r, st.ptag) + Encode(recs[1..], Pack(r.tag));
      if d < n {
        HoldsPart(block, st.off, all, ToBe(Xor(Pack(r.tag), st.ptag)), d);
        CutInData(block, MarkOf(st), r.tag);
      } else {
        HoldsPart(block, st.off, all, EncodeRec(r, st.ptag), d);
        WalkReadsRec(block, st, r);
        PartBehind(block, st.off, all, n, d);
        assert all[n..] == Encode(recs[1..], Pack(r.tag));
        AdvancedOne(st, r);
        CutInRecs(block, AdvanceOne(st, r), recs[1..], d - n);
      }
    }
  }

  lemma AdvancedOne(st: State, r: Rec)
    requires Committable(r)
    ensures var s := AdvanceOne(st, r);
            s.off == st.off + r.tag.DSize() && s.ptag == Pack(r.tag) && s.best == st.best && IsValid(s.ptag)
  {
    UnpackPack(r.tag);
  }

  lemma RecordParts(r: Rec, ptag: Word)
    requires Committable(r)
    ensures r.tag.Fits() && Type1(r.tag.kind) != TYPE_CRC && |EncodeRec(r, ptag)| == r.tag.DSize()
    ensures EncodeRec(r, ptag)[..4] == ToBe(Xor(Pack(r.tag), ptag))
  {
  }

  /** A CRC tag whose word is there: it seals the walk exactly if its checksum is there as well. */
  lemma CutInChecksum(block: seq<Byte>, m: Mark, t: Tag)
    requires t.Fits() && Type1(t.kind) == TYPE_CRC && m.off + t.DSize() <= |block| && m.off + 8 <= |block|
    requires Holds(block, m.off, ToBe(Xor(Pack(t), m.ptag)))
    ensures Unsealed(block, m) <==> block[m.off + 4..m.off + 8] != ToLe(Crc(m.crc, ToBe(Xor(Pack(t), m.ptag))))
  {
    hide IsValid, Xor, Unpack, Pack, FromBe, ToBe, FromLe, ToLe, Type1, Crc;
    TagRoundTrip(t, m.ptag);
    WordRoundTrip(Crc(m.crc, ToBe(Xor(Pack(t), m.ptag))));
    BytesRoundTrip(block[m.off + 4..m.off + 8]);
  }

  lemma WalkReadsRecs(block: seq<Byte>, st: State, recs: seq<Rec>)
    requires AllCommittable(recs) && Holds(block, st.off, Encode(recs, st.ptag)) && st.best.off <= st.off
    ensures Unsealed(block, MarkOf(st)) == Unsealed(block, MarkOf(Advance(st, recs)))
  {
    hide Step, Scan, Unsealed, Encode, Committable, Holds, AdvanceOne;
    ScanReadsRecs(block, 1, st, recs);
    AdvanceShape(st, recs);
    UnsealedExactly(block, 1, st);
    UnsealedExactly(block, 1, Advance(st, recs));
  }

  lemma {:induction false} InsideLast(recs: seq<Rec>, ptag: Word, d: nat)
    requires AllCommittable(recs) && d >= |Encode(recs, ptag)|
    ensures InsideTag(recs, d) == InsideTag([], d - |Encode(recs, ptag)|)
    decreases |recs|
  {
    hide Committable, EncodeRec, Pack;
    if recs != [] {
      RecordParts(recs[0], ptag);
      InsideLast(recs[1..], Pack(recs[0].tag), d - recs[0].tag.DSize());
    }
  }

  /** What a committed block holds up to the end of its first CRC tag. */
  lemma CommittedParts(block: seq<Byte>, prog: nat, st: State, recs: seq<Rec>)
    requires AllCommittable(recs) && prog > 0 && CommitEnd(Advance(st, recs).off, prog) <= |block|
    ensures var e, end := Advance(st, recs), CommitEnd(Advance(st, recs).off, prog);
            var b := Put(block, st.off, Encode(recs, st.ptag));
            var t := FooterTag(b, e.off, end);
            && e.off + 8 <= end && Type1(t.kind) == TYPE_CRC && e.off + t.DSize() <= |block|
            && Holds(Committed(block, st, recs, prog).block, st.off, Encode(recs, st.ptag))
            && Holds(Committed(block, st, recs, prog).block, e.off, FooterBytes(Pack(t), e.ptag, e.crc))
  {
    hide Encode, Crc, Holds, FooterBytes, FooterTag, Committable;
    var e, end := Advance(st, recs), CommitEnd(Advance(st, recs).off, prog);
    var b := Put(block, st.off, Encode(recs, st.ptag));
    CommittedFrame(block, st, recs, prog);
    CloseHead(b, e.off, e.ptag, e.crc, end);
    FooterSize(b, e.off, end);
  }

  lemma HoldsAgrees(a: seq<Byte>, b: seq<Byte>, off: nat, x: seq<Byte>, n: nat)
    requires Holds(a, off, x) && off + |x| <= n <= |a| == |b| && a[..n] == b[..n]
    ensures Holds(b, off, x)
  {
    SameSlice(a, b, off, off + |x|, n);
  }

  /** The word of the first CRC tag, and the checksum behind it. */
  lemma FooterAgrees(whole: seq<Byte>, torn: seq<Byte>, e: State, t: Tag, n: nat)
    requires t.Fits() && Holds(whole, e.off, FooterBytes(Pack(t), e.ptag, e.crc)) && |whole| == |torn|
    requires e.off + 4 <= n <= e.off + 8 <= |whole| && torn[..n] == whole[..n]
    ensures Holds(torn, e.off, ToBe(Xor(Pack(t), e.ptag)))
    ensures torn[..e.off + 8] == whole[..e.off + 8] <==>
            torn[e.off + 4..e.off + 8] == ToLe(Crc(e.crc, ToBe(Xor(Pack(t), e.ptag))))
  {
    hide Crc, Pack, Xor, ToBe, ToLe;
    var word := ToBe(Xor(Pack(t), e.ptag));
    HoldsConcat(whole, e.off, word, ToLe(Crc(e.crc, word)));
    HoldsAgrees(whole, torn, e.off, word, n);
    SplitPrefix(torn, e.off + 4, e.off + 8);
    SplitPrefix(whole, e.off + 4, e.off + 8);
    assert torn[..e.off + 4] == torn[..n][..e.off + 4] == whole[..n][..e.off + 4] == whole[..e.off + 4];
  }

  lemma SplitPrefix(s: seq<Byte>, i: nat, j: nat)
    requires i <= j <= |s|
    ensures s[..j] == s[..i] + s[i..j]
  {
  }

  /** Where the tags and the first CRC tag's word are there, the checksum decides. */
  lemma ChecksumDecides(block: seq<Byte>, torn: seq<Byte>, prog: nat, st: State, recs: seq<Rec>, n: nat)
    requires AllCommittable(recs) && prog > 0 && CommitEnd(Advance(st, recs).off, prog) <= |block| == |torn|
    requires st.best.off <= st.off
    requires var e := Advance(st, recs).off;
             e + 4 <= n <= e + 8 && torn[..n] == Committed(block, st, recs, prog).block[..n]
    ensures var e := Advance(st, recs).off;
            Unsealed(torn, MarkOf(st)) <==> torn[..e + 8] != Committed(block, st, recs, prog).block[..e + 8]
  {
    hide Unsealed, Encode, Committed, Committable, Holds, FooterBytes, FooterTag, Advance, CommitEnd, Crc, Pack, Xor;
    var whole, e, end := Committed(block, st, recs, prog).block, Advance(st, recs),
      CommitEnd(Advance(st, recs).off, prog);
    var t := FooterTag(Put(block, st.off, Encode(recs, st.ptag)), e.off, end);
    CommittedParts(block, prog, st, recs);
    HoldsAgrees(whole, torn, st.off, Encode(recs, st.ptag), n);
    WalkReadsRecs(torn, st, recs);
    FooterAgrees(whole, torn, e, t, n);
    CutInChecksum(torn, MarkOf(e), t);
  }

  lemma WholeSeals(block: seq<Byte>, torn: seq<Byte>, prog: nat, st: State, recs: seq<Rec>)
    requires AllCommittable(recs) && prog > 0 && CommitEnd(Advance(st, recs).off, prog) <= |block| == |torn|
    requires st.best.off <= st.off
    requires var n := Advance(st, recs).off + 8; torn[..n] == Committed(block, st, recs, prog).block[..n]
    ensures !Unsealed(torn, MarkOf(st))
  {
    hide Unsealed, Encode, Committed, Committable, Advance, CommitEnd;
    ChecksumDecides(block, torn, prog, st, recs, Advance(st, recs).off + 8);
  }

  /** A commit cut anywhere but inside the word of a tag. */
  lemma CutBetween(block: seq<Byte>, torn: seq<Byte>, prog: nat, st: State, recs: seq<Rec>, k: nat)
    requires AllCommittable(recs) && prog > 0 && CommitEnd(Advance(st, recs).off, prog) <= |block| == |torn|
    requires st.best.off <= st.off
    requires st.off <= k <= |block| && torn[..k] == Committed(block, st, recs, prog).block[..k] && ErasedFrom(torn, k)
    requires !InsideTag(recs, k - st.off) && (k == st.off ==> IsValid(st.ptag))
    ensures var e := Advance(st, recs).off;
            Unsealed(torn, MarkOf(st)) <==> torn[..e + 8] != Committed(block, st, recs, prog).block[..e + 8]
  {
    hide Unsealed, Committed, Committable, Advance, CommitEnd, InsideTag, IsValid, ErasedFrom;
    var e := Advance(st, recs).off;
    if k <= e {
      CutEarly(block, torn, prog, st, recs, k);
      if torn[..e + 8] == Committed(block, st, recs, prog).block[..e + 8] {
        WholeSeals(block, torn, prog, st, recs);
      }
    } else {
      InsideLast(recs, st.ptag, k - st.off);
      NotInside(k - e);
      var n := Min(k, e + 8);
      Shorter(torn, Committed(block, st, recs, prog).block, n, k);
      ChecksumDecides(block, torn, prog, st, recs, n);
    }
  }

  // ---- Cuts inside the word of a tag ----

  /** The walk reads a CRC tag here whose checksum would be that of erased bytes. */
  predicate StrayCrc(block: seq<Byte>, m: Mark) {
    m.off + 8 <= |block| &&
    var tag := TagAt(block, m);
    && IsValid(tag) && Type1(Unpack(tag).kind) == TYPE_CRC && m.off + Unpack(tag).DSize() <= |block|
    && Crc(m.crc, block[m.off..m.off + 4]) == BLANK
  }

  lemma ErasedChecksum(block: seq<Byte>, off: nat)
    requires off + 4 <= |block| && ErasedFrom(block, off)
    ensures FromLe(block[off..off + 4]) == BLANK
  {
    assert block[off..off + 4] == [ERASED, ERASED, ERASED, ERASED];
    FromLeFour(ERASED, ERASED, ERASED, ERASED);
    AllOnes();
  }

  /**
   * Behind a word, whatever it holds, erased bytes end the walk unless the word is a CRC tag that they happen to fit.
   */
  lemma WordEnds(block: seq<Byte>, m: Mark)
    requires ErasedFrom(block, m.off + 4)
    ensures Unsealed(block, m) <==> !StrayCrc(block, m)
  {
    hide IsValid, Xor, Unpack, FromBe, FromLe, Type1, Crc;
    if m.off + 8 <= |block| {
      ErasedChecksum(block, m.off + 4);
    }
    if m.off + 4 <= |block| && IsValid(TagAt(block, m)) && m.off + Unpack(TagAt(block, m)).DSize() <= |block| {
      ErasedEnds(block, Behind(block, m));
    }
  }

  /** Where a scan stands at the tag that byte d of some records, and a CRC tag behind them, belongs to. */
  function CutState(st: State, recs: seq<Rec>, d: nat): State
    requires AllCommittable(recs)
    decreases |recs|
  {
    if d < 4 || recs == [] || d < recs[0].tag.DSize() then st
    else CutState(AdvanceOne(st, recs[0]), recs[1..], d - recs[0].tag.DSize())
  }

  /** Up to a cut inside the word of a tag the walk goes on, and there that word decides. */
  lemma {:induction false} CutInWord(block: seq<Byte>, st: State, recs: seq<Rec>, d: nat)
    requires AllCommittable(recs) && InsideTag(recs, d) && st.best.off <= st.off && ErasedFrom(block, st.off + d)
    requires if d <= |Encode(recs, st.ptag)|
             then st.off + d <= |block| && block[st.off..st.off + d] == Encode(recs, st.ptag)[..d]
             else Holds(block, st.off, Encode(recs, st.ptag))
    ensures Unsealed(block, MarkOf(st)) <==> !StrayCrc(block, MarkOf(CutState(st, recs, d)))
    decreases |recs|
  {
    hide Unsealed, IsValid, Xor, Pack, ToBe, Type1, Crc, Committable, AdvanceOne, EncodeRec, StrayCrc;
    if d < 4 {
      WordEnds(block, MarkOf(st));
    } else {
      var r, all := recs[0], Encode(recs, st.ptag);
      var n := r.tag.DSize();
      RecordParts(r, st.ptag);
      assert all == EncodeRec(r, st.ptag) + Encode(recs[1..], Pack(r.tag));
      assert all[n..] == Encode(recs[1..], Pack(r.tag));
      if d <= |all| {
        HoldsPart(block, st.off, all, EncodeRec(r, st.ptag), d);
        PartBehind(block, st.off, all, n, d);
      } else {
        HoldsConcat(block, st.off, EncodeRec(r, st.ptag), Encode(recs[1..], Pack(r.tag)));
      }
      WalkReadsRec(block, st, r);
      AdvancedOne(st, r);
      CutInWord(block, AdvanceOne(st, r), recs[1..], d - n);
    }
  }

  lemma CutEarly(block: seq<Byte>, torn: seq<Byte>, prog: nat, st: State, recs: seq<Rec>, k: nat)
    requires AllCommittable(recs) && prog > 0 && CommitEnd(Advance(st, recs).off, prog) <= |block| == |torn|
    requires st.best.off <= st.off
    requires st.off <= k <= |block| && torn[..k] == Committed(block, st, recs, prog).block[..k] && ErasedFrom(torn, k)
    requires !InsideTag(recs, k - st.off) && (k == st.off ==> IsValid(st.ptag)) && k <= Advance(st, recs).off
    ensures Unsealed(torn, MarkOf(st))
  {
    hide Unsealed, Encode, Committed, Committable, Holds, CommitEnd, InsideTag, IsValid, ErasedFrom, Crc;
    CommittedFrame(block, st, recs, prog);
    HeldPrefix(Committed(block, st, recs, prog).block, torn, st.off, Encode(recs, st.ptag), k);
    CutInRecs(torn, st, recs, k - st.off);
  }

  lemma Shorter(a: seq<Byte>, b: seq<Byte>, n: nat, k: nat)
    requires n <= k <= |a| && k <= |b| && a[..k] == b[..k]
    ensures a[..n] == b[..n]
  {
    assert a[..n] == a[..k][..n] && b[..n] == b[..k][..n];
  }

  lemma NotInside(d: nat)
    requires !InsideTag([], d) && d > 0
    ensures d >= 4
  {
  }

  lemma HeldPrefix(whole: seq<Byte>, torn: seq<Byte>, off: nat, x: seq<Byte>, k: nat)
    requires Holds(whole, off, x) && off <= k <= off + |x| && k <= |torn| == |whole| && torn[..k] == whole[..k]
    ensures torn[off..k] == x[..k - off]
  {
    SameSlice(torn, whole, off, k, k);
    assert whole[off..k] == whole[off..off + |x|][..k - off];
  }

  /** What is written of a commit at a cut. */
  lemma HeldAtCut(block: seq<Byte>, torn: seq<Byte>, prog: nat, st: State, recs: seq<Rec>, k: nat)
    requires AllCommittable(recs) && prog > 0 && CommitEnd(Advance(st, recs).off, prog) <= |block| == |torn|
    requires st.off <= k <= |block| && torn[..k] == Committed(block, st, recs, prog).block[..k]
    ensures var d, all := k - st.off, Encode(recs, st.ptag);
            if d <= |all| then st.off + d <= |torn| && torn[st.off..st.off + d] == all[..d]
              else Holds(torn, st.off, all)
  {
    hide Encode, Committed, Committable, CommitEnd, Advance;
    CommittedFrame(block, st, recs, prog);
    var whole := Committed(block, st, recs, prog).block;
    if k - st.off <= |Encode(recs, st.ptag)| {
      HeldPrefix(whole, torn, st.off, Encode(recs, st.ptag), k);
    } else {
      HoldsAgrees(whole, torn, st.off, Encode(recs, st.ptag), k);
    }
  }

  /**
   * A commit cut at any byte, on a block that is erased behind the cut. The walk from where the commit begins is sealed
   * if and only if everything up to the end of its first CRC tag is there; but if the cut goes through the word of a
   * tag, if and only if what is left of that word reads as a CRC tag that erased bytes happen to fit.
   */
  lemma CutCommit(block: seq<Byte>, torn: seq<Byte>, prog: nat, st: State, recs: seq<Rec>, k: nat)
    requires AllCommittable(recs) && prog > 0 && CommitEnd(Advance(st, recs).off, prog) <= |block| == |torn|
    requires st.best.off <= st.off
    requires st.off <= k <= |block| && torn[..k] == Committed(block, st, recs, prog).block[..k] && ErasedFrom(torn, k)
    requires k == st.off ==> IsValid(st.ptag)
    ensures var e := Advance(st, recs).off;
            Unsealed(torn, MarkOf(st)) <==>
            if InsideTag(recs, k - st.off) then !StrayCrc(torn, MarkOf(CutState(st, recs, k - st.off)))
            else torn[..e + 8] != Committed(block, st, recs, prog).block[..e + 8]
  {
    hide Unsealed, Committed, Committable, Advance, CommitEnd, InsideTag, IsValid, ErasedFrom, StrayCrc, CutState,
         Encode, Holds;
    if InsideTag(recs, k - st.off) {
      HeldAtCut(block, torn, prog, st, recs, k);
      CutInWord(torn, st, recs, k - st.off);
    } else {
      CutBetween(block, torn, prog, st, recs, k);
    }
  }

  // ---- The new side ----

  /** A fetch that has gone on, over nothing but CRC tags: the same directory. */
  predicate GrownByCrcs(g: Found, f: Found) {
    && f.off <= g.off && g.tail == f.tail && g.split == f.split
    && f.log <= g.log && OnlyCrcs(g.log[|f.log|..])
  }

  lemma GrownFurther(g: Found, h: Found, f: Found)
    requires GrownByCrcs(g, h) && h.off >= f.off && h.tail == f.tail && h.split == f.split
    requires f.log <= h.log && OnlyCrcs(h.log[|f.log|..])
    ensures GrownByCrcs(g, f)
  {
    assert g.log[|f.log|..] == h.log[|f.log|..] + g.log[|h.log|..];
  }

  lemma CrcOverErased(ptag: Word)
    requires Type1(Unpack(ptag).kind) == TYPE_CRC && IsValid(Xor(BLANK, ptag))
    ensures Type1(Unpack(Xor(BLANK, ptag)).kind) == TYPE_STRUCT
  {
  }

  /** Behind a CRC tag, whatever its valid bit has become, erased bytes end the walk. */
  lemma ErasedBehindCrc(block: seq<Byte>, m: Mark)
    requires ErasedFrom(block, m.off) && Type1(Unpack(m.ptag).kind) == TYPE_CRC
    ensures Unsealed(block, m)
  {
    hide IsValid, Xor, Unpack, FromBe, Crc;
    if m.off + 4 <= |block| {
      ErasedWord(block, m.off);
      if IsValid(TagAt(block, m)) {
        CrcOverErased(m.ptag);
        if m.off + Unpack(TagAt(block, m)).DSize() <= |block| {
          ErasedEnds(block, Behind(block, m));
        }
      }
    }
  }

  /** The tag a scan is about to read, if there is one. */
  function NextTag(block: seq<Byte>, st: State): Tag { Unpack(LookAt(block, st.off, st.ptag).tag) }

  lemma ChainKind(tag: Word)
    ensures Unpack(Chain(tag)).kind == Unpack(tag).kind
  {
    FlipKeepsFields(tag);
  }

  /** With one more tag in front of erased bytes, at most a CRC tag is found. */
  lemma EndsSoon(block: seq<Byte>, prog: nat, st: State)
    requires prog > 0 && st == Resume(st.best) && ErasedFrom(block, st.off + 8)
    requires ErasedFrom(block, st.off + 4)
             || (Type1(NextTag(block, st).kind) == TYPE_CRC && NextTag(block, st).DSize() >= 8)
    ensures GrownByCrcs(Scan(block, prog, st).found, st.best)
  {
    hide Unsealed, Unpack, Type1, Chain, Crc, FromBe, FromLe, Xor, IsValid, Step, Bytes;
    ScanStep(block, prog, st);
    var tag := LookAt(block, st.off, st.ptag).tag;
    match Step(block, prog, st)
    case Stop(_) => assert st.best.log[|st.best.log|..] == [];
    case Go(next) =>
      GoesOn(block, prog, st, next);
      if Type1(Unpack(tag).kind) == TYPE_CRC {
        ChainKind(tag);
        ErasedBehindCrc(block, MarkOf(next));
        UnsealedExactly(block, prog, next);
        assert next.best.log[|st.best.log|..] == [Rec(Unpack(tag), LookAt(block, st.off, st.ptag).data)];
      } else {
        ErasedEnds(block, MarkOf(next));
        UnsealedExactly(block, prog, next);
        assert st.best.log[|st.best.log|..] == [];
      }
  }

  /** A scan that goes on from the end of a commit. */
  lemma GoesOn(block: seq<Byte>, prog: nat, st: State, next: State)
    requires prog > 0 && st == Resume(st.best) && Step(block, prog, st) == Go(next)
    ensures var l := LookAt(block, st.off, st.ptag);
            var t := Unpack(l.tag);
            && next.off == st.off + t.DSize() && next.off >= st.off + 4 && next.best.off <= next.off && IsValid(l.tag)
            && (if Type1(t.kind) == TYPE_CRC then
                  && next == Resume(next.best) && next.ptag == Chain(l.tag)
                  && next.best.log == st.log + [Rec(t, l.data)] && next.best.tail == st.tail
                  && next.best.split == st.split
                else next.best == st.best && next.ptag == l.tag)
  {
    hide Crc, FromBe, FromLe, Xor, IsValid, Type1, Chain;
  }

  lemma ErasedLater(block: seq<Byte>, k: nat, l: nat)
    requires ErasedFrom(block, k) && k <= l
    ensures ErasedFrom(block, l)
  {
  }

  /** At the end of a commit the next tag reads as invalid. */
  lemma StopsHere(b: seq<Byte>, torn: seq<Byte>, prog: nat, st: State, tag: Word, k: nat)
    requires prog > 0 && st.off + 4 <= k <= |b| == |torn| && torn[..k] == b[..k]
    requires IsValid(tag) && st.ptag == (if NeedsReset(b, st.off) then Flip(tag) else tag)
    ensures Scan(torn, prog, st).found == st.best
  {
    hide IsValid, Xor, FromBe, Flip, Crc, Unpack;
    SameSlice(torn, b, st.off, st.off + 4, k);
    InvalidNext(BeAt(b, st.off), tag, st.ptag);
    BytesAre(torn, st.off, st.off + 4);
  }

  lemma NextReset(b: seq<Byte>, off: nat, x: seq<Byte>, noff: nat)
    requires off + |x| <= noff && off + |x| <= |b|
    ensures NeedsReset(Put(b, off, x), noff) == NeedsReset(b, noff)
  {
    hide IsValid, FromBe;
    if noff + 4 <= |b| {
      var c := Put(b, off, x);
      assert c[noff..noff + 4] == c[off + |x|..][noff - off - |x|..noff + 4 - off - |x|];
      assert b[noff..noff + 4] == b[off + |x|..][noff - off - |x|..noff + 4 - off - |x|];
    }
  }

  lemma PastGrows(c: seq<Byte>, st: State, t: Tag, noff: nat)
    requires t.Fits() && Type1(t.kind) == TYPE_CRC && noff >= st.off
    ensures var next := PastFooter(c, st, t, noff);
            && next == Resume(next.best) && next.off == noff && next.ptag == Chain(Pack(t))
            && st.log <= next.best.log && OnlyCrcs(next.best.log[|st.log|..])
            && next.best.tail == st.tail && next.best.split == st.split
  {
    hide Chain, Pack, Bytes;
    var next := PastFooter(c, st, t, noff);
    assert next.best.log[|st.log|..] == [Rec(t, Bytes(c, st.off + 4, noff))];
  }

  /** The word of a CRC tag is there. */
  lemma FooterWord(whole: seq<Byte>, torn: seq<Byte>, st: State, t: Tag, k: nat)
    requires t.Fits() && Holds(whole, st.off, FooterBytes(Pack(t), st.ptag, INIT))
    requires st.off + 4 <= k <= |whole| == |torn| && torn[..k] == whole[..k]
    ensures NextTag(torn, st) == t
  {
    hide Crc, Pack, Xor, ToBe, ToLe, FromBe, Unpack;
    var word := ToBe(Xor(Pack(t), st.ptag));
    HoldsConcat(whole, st.off, word, ToLe(Crc(INIT, word)));
    HoldsAgrees(whole, torn, st.off, word, k);
    BytesAre(torn, st.off, st.off + 4);
    TagRoundTrip(t, st.ptag);
  }

  /** What is left of the CRC tags of a commit behind a cut: a fetch finds nothing but CRC tags there. */
  lemma {:induction false} FootersCut(b: seq<Byte>, torn: seq<Byte>, prog: nat, st: State, tag: Word, end: nat, k: nat)
    requires prog > 0 && (st.off == end || st.off + 8 <= end) && end <= |b| == |torn| && k <= |b|
    requires st == Resume(st.best) && Type1(Unpack(st.ptag).kind) == TYPE_CRC
    requires IsValid(tag) && st.ptag == (if NeedsReset(b, st.off) then Flip(tag) else tag)
    requires torn[..k] == Close(b, st.off, st.ptag, INIT, end).block[..k] && ErasedFrom(torn, k)
    ensures GrownByCrcs(Scan(torn, prog, st).found, st.best)
    decreases end - st.off
  {
    hide Scan, Crc, FooterTag, FooterBytes, FooterEnd, Close, Put, Type1, Chain, Pack, Unpack, Holds, Xor, IsValid,
         Flip, NeedsReset, LookAt, ErasedFrom;
    if st.off == end {
      CloseDone(b, st.ptag, INIT, end);
      if end + 4 <= k {
        StopsHere(b, torn, prog, st, tag, k);
      } else {
        ErasedLater(torn, k, end + 4);
        ErasedLater(torn, k, end + 8);
        EndsSoon(torn, prog, st);
      }
    } else {
      var t, noff := FooterTag(b, st.off, end), FooterEnd(st.off, end);
      var whole := Close(b, st.off, st.ptag, INIT, end).block;
      FooterSize(b, st.off, end);
      CloseHead(b, st.off, st.ptag, INIT, end);
      if st.off + 8 <= k {
        HoldsAgrees(whole, torn, st.off, FooterBytes(Pack(t), st.ptag, INIT), k);
        ScanReadsFooter(torn, prog, st, t, noff);
        ChainOfFooter(b, st.off, end);
        CloseStep(b, st.off, st.ptag, INIT, end);
        var next := PastFooter(torn, st, t, noff);
        PastGrows(torn, st, t, noff);
        NextReset(b, st.off, FooterBytes(Pack(t), st.ptag, INIT), noff);
        FootersCut(PutFooter(b, st.off, st.ptag, INIT, end), torn, prog, next, Pack(t), end, k);
        GrownFurther(Scan(torn, prog, next).found, next.best, st.best);
      } else {
        ErasedLater(torn, k, st.off + 8);
        if k < st.off + 4 {
          ErasedLater(torn, k, st.off + 4);
        } else {
          FooterWord(whole, torn, st, t, k);
        }
        EndsSoon(torn, prog, st);
      }
    }
  }

  /** The directory of a commit: the old log and its records, followed by CRC tags, and the tail they leave. */
  predicate Carries(g: Found, e: State) {
    e.log <= g.log && OnlyCrcs(g.log[|e.log|..]) && g.tail == e.tail && g.split == e.split
  }

  /** A scan of a cut commit whose first CRC tag is complete. */
  lemma ScanCarries(block: seq<Byte>, torn: seq<Byte>, prog: nat, st: State, recs: seq<Rec>, k: nat)
    requires AllCommittable(recs) && prog > 0 && CommitEnd(Advance(st, recs).off, prog) <= |block| == |torn|
    requires st.off <= k <= |block| && torn[..k] == Committed(block, st, recs, prog).block[..k] && ErasedFrom(torn, k)
    requires var n := Advance(st, recs).off + 8; torn[..n] == Committed(block, st, recs, prog).block[..n]
    ensures Carries(Scan(torn, prog, st).found, Advance(st, recs))
  {
    hide Scan, Crc, FooterTag, FooterBytes, FooterEnd, Close, Put, Type1, Chain, Pack, Unpack, Holds, Xor, IsValid,
         Flip, NeedsReset, LookAt, ErasedFrom, Advance, Encode, CommitEnd, Committable;
    var e, end := Advance(st, recs), CommitEnd(Advance(st, recs).off, prog);
    var b, whole := Put(block, st.off, Encode(recs, st.ptag)), Committed(block, st, recs, prog).block;
    var t, noff, n := FooterTag(b, e.off, end), FooterEnd(e.off, end), Max(k, e.off + 8);
    var x := FooterBytes(Pack(t), e.ptag, e.crc);
    CommittedParts(block, prog, st, recs);
    HoldsAgrees(whole, torn, st.off, Encode(recs, st.ptag), e.off + 8);
    HoldsAgrees(whole, torn, e.off, x, e.off + 8);
    ScanReadsRecs(torn, prog, st, recs);
    FooterSize(b, e.off, end);
    ScanReadsFooter(torn, prog, e, t, noff);
    ChainOfFooter(b, e.off, end);
    CloseStep(b, e.off, e.ptag, e.crc, end);
    NextReset(b, e.off, x, noff);
    PastGrows(torn, e, t, noff);
    ErasedLater(torn, k, n);
    var next := PastFooter(torn, e, t, noff);
    FootersCut(PutFooter(b, e.off, e.ptag, e.crc, end), torn, prog, next, Pack(t), end, n);
    GrownFurther(Scan(torn, prog, next).found, next.best, Found(0, BLANK, e.log, e.tail, e.split));
  }

  /** With a byte of the first tag there, what follows the old commit is not taken for erased. */
  lemma CutIsNotErased(block: seq<Byte>, torn: seq<Byte>, prog: nat, recs: seq<Rec>, k: nat)
    requires 4 <= |block| == |torn| && prog > 0 && AllCommittable(recs)
    requires var f := FetchBlock(block, prog).found;
             && f.off > 0 && CommitEnd(Advance(Resume(f), recs).off, prog) <= |block|
             && f.off < k <= |block| && torn[..k] == Committed(block, Resume(f), recs, prog).block[..k]
    ensures FetchBlock(torn, prog).found == FetchBlock(block, prog).found ==> !FetchBlock(torn, prog).erased
  {
    hide FetchBlock, Committed, Committable, Advance, CommitEnd, IsValid, FromBe, Xor;
    var f := FetchBlock(block, prog).found;
    var whole := Committed(block, Resume(f), recs, prog).block;
    FirstTagFits(block, Resume(f), recs, prog);
    WholeSeals(block, whole, prog, Resume(f), recs);
    SealedIsValid(whole, MarkOf(Resume(f)));
    ErasedExactly(torn, prog);
    assert torn[f.off] == torn[..k][f.off] == whole[..k][f.off] == whole[f.off];
    FirstByteDecides(whole[f.off..f.off + 4], torn[f.off..f.off + 4], f.etag);
  }

  lemma FirstTagFits(block: seq<Byte>, st: State, recs: seq<Rec>, prog: nat)
    requires AllCommittable(recs) && prog > 0 && CommitEnd(Advance(st, recs).off, prog) <= |block|
    ensures st.off + 8 <= Advance(st, recs).off + 8 <= |block|
  {
    hide Encode, Committable;
    AdvanceShape(st, recs);
  }

  lemma SealedIsValid(block: seq<Byte>, m: Mark)
    requires !Unsealed(block, m) && m.off + 4 <= |block|
    ensures IsValid(TagAt(block, m))
  {
    hide IsValid, Xor, FromBe, Crc, FromLe, Unpack, Type1;
  }

  /**
   * An append cut short at any byte, on a block erased behind the cut. Once its first CRC tag is complete, a fetch
   * returns the old log, the new attributes and nothing else but CRC tags, with the tail they leave. Before that it
   * returns exactly the old state, unless the cut leaves a word that reads as a CRC tag and that erased bytes happen to
   * fit; and it does not take what follows for erased.
   */
  lemma CutAppend(block: seq<Byte>, torn: seq<Byte>, prog: nat, recs: seq<Rec>, k: nat)
    requires 4 <= |block| == |torn| && prog > 0 && AllCommittable(recs)
    requires var f := FetchBlock(block, prog).found;
             && f.off > 0 && AllWellSized(f.log) && CommitEnd(Advance(Resume(f), recs).off, prog) <= |block|
             && f.off < k <= |block| && torn[..k] == Committed(block, Resume(f), recs, prog).block[..k]
             && ErasedFrom(torn, k)
    ensures var f, st := FetchBlock(block, prog).found, Resume(FetchBlock(block, prog).found);
            var n := Advance(st, recs).off + 8;
            if torn[..n] == Committed(block, st, recs, prog).block[..n]
            then Carries(FetchBlock(torn, prog).found, Advance(st, recs)) && Advance(st, recs).log == f.log + recs
            else
              && (FetchBlock(torn, prog).found == f <==>
                    !(InsideTag(recs, k - f.off) && StrayCrc(torn, MarkOf(CutState(st, recs, k - f.off)))))
              && (FetchBlock(torn, prog).found == f ==> !FetchBlock(torn, prog).erased)
  {
    hide FetchBlock, Unsealed, Committed, Committable, Advance, CommitEnd, InsideTag, ErasedFrom, AllWellSized,
         StrayCrc, CutState, Carries, Scan;
    var f := FetchBlock(block, prog).found;
    var st := Resume(f);
    CommittedFrame(block, st, recs, prog);
    CutIsNotErased(block, torn, prog, recs, k);
    assert torn[..f.off] == torn[..k][..f.off] == block[..f.off];
    CutCommit(block, torn, prog, st, recs, k);
    TornCommitExactly(block, torn, prog);
    var n := Advance(st, recs).off + 8;
    if torn[..n] == Committed(block, st, recs, prog).block[..n] {
      FetchResumes(block, torn, prog);
      ScanCarries(block, torn, prog, st, recs, k);
      AdvanceShape(st, recs);
    }
  }

  // ---- Cut compactions ----

  /** On a block erased behind its revision the walk finds one empty tag and then nothing. */
  lemma ErasedBehindRevision(block: seq<Byte>, crc: Word)
    requires ErasedFrom(block, 4)
    ensures Unsealed(block, Mark(4, BLANK, crc))
  {
    hide IsValid, Unpack, FromBe, Type1, Crc, Xor;
    var m := Mark(4, BLANK, crc);
    if 8 <= |block| {
      ErasedWord(block, 4);
      BlankOverBlank();
      ErasedEnds(block, Behind(block, m));
    }
  }

  lemma BlankOverBlank()
    ensures var tag := Xor(BLANK, BLANK);
            IsValid(tag) && Unpack(tag).DSize() == 4 && Type1(Unpack(tag).kind) != TYPE_CRC
              && Type1(Unpack(tag).kind) != TYPE_TAIL
  {
    assert Xor(BLANK, BLANK) == Word(0);
  }
}
