/**
 * Power loss in the middle of a commit. A block counts with what is being written from the moment the first CRC tag of
 * the commit is complete, and not before, so that a directory goes from its old entries to the new ones in one step.
 */
module PowerLoss {
  import opened Words
  import opened Tags
  import opened Log
  import opened Checksum
  import opened Fetch
  import opened Commit
  import opened Traverse
  import opened GlobalState
  import opened Contents
  import opened Switch
  import opened Torn

  /** The bytes of a block decide whether it is complete: some CRC tag of its walk has the right checksum. */
  lemma CompleteExactly(block: seq<Byte>, prog: nat)
    requires |block| >= 4 && prog > 0
    ensures Complete(block, prog) <==> !Unsealed(block, Mark(4, BLANK, Crc(INIT, block[..4])))
  {
    hide Scan, Unsealed, Crc;
    UnsealedExactly(block, prog, Start(block));
    ScanAdvances(block, prog, Start(block));
  }

  /** A block freshly erased, with the revision of a compaction on it. */
  function Header(blank: seq<Byte>, rev: Word): (b: seq<Byte>)
    requires |blank| >= 4
    ensures |b| == |blank|
  {
    Put(blank, 0, ToLe(rev))
  }

  /** The compaction can be written: its tags fit, closing tags included. */
  predicate Fits(blank: seq<Byte>, rev: Word, recs: seq<Rec>, prog: nat) {
    && |blank| >= 4 && AllCommittable(recs) && prog > 0
    && CommitEnd(Advance(Start(Header(blank, rev)), recs).off, prog) <= |blank|
  }

  /** Up to where a compaction must have been written to count: the end of its first CRC tag. */
  function Needed(blank: seq<Byte>, rev: Word, recs: seq<Rec>, prog: nat): nat
    requires Fits(blank, rev, recs, prog)
  {
    Advance(Start(Header(blank, rev)), recs).off + 8
  }

  /** A part of a compaction on an erased block: its first k bytes. */
  predicate CutAt(blank: seq<Byte>, torn: seq<Byte>, rev: Word, recs: seq<Rec>, prog: nat, k: nat)
    requires Fits(blank, rev, recs, prog)
  {
    && |torn| == |blank| && k <= |blank| && torn[..k] == Compacted(blank, rev, recs, prog).block[..k]
    && ErasedFrom(torn, k)
  }

  /**
   * The cut goes through the word of a tag, and what is left of it reads as a CRC tag that erased bytes happen to fit.
   */
  predicate Stray(blank: seq<Byte>, torn: seq<Byte>, rev: Word, recs: seq<Rec>, prog: nat, k: nat)
    requires Fits(blank, rev, recs, prog)
  {
    k > 4 && InsideTag(recs, k - 4) && StrayCrc(torn, MarkOf(CutState(Start(Header(blank, rev)), recs, k - 4)))
  }

  lemma HeaderBytes(blank: seq<Byte>, rev: Word, recs: seq<Rec>, prog: nat)
    requires Fits(blank, rev, recs, prog)
    ensures Compacted(blank, rev, recs, prog).block[..4] == Header(blank, rev)[..4] == ToLe(rev)
    ensures LeAt(Compacted(blank, rev, recs, prog).block, 0) == rev
    ensures Needed(blank, rev, recs, prog) <= |blank| && Needed(blank, rev, recs, prog) >= 12
  {
    hide Committed, Advance, Committable, ToLe, FromLe, Scan, CommitEnd;
    var b := Header(blank, rev);
    assert b[..4] == b[0..4];
    CommittedFrame(b, Start(b), recs, prog);
    CompactedFetch(blank, rev, recs, prog);
    AtLeastFour(Start(b), recs);
    EndBehind(Advance(Start(b), recs).off, prog);
  }

  lemma AtLeastFour(st: State, recs: seq<Rec>)
    requires AllCommittable(recs) && st.off >= 4
    ensures Advance(st, recs).off >= 4
  {
    hide Encode;
  }

  lemma EndBehind(off: nat, prog: nat)
    requires prog > 0
    ensures CommitEnd(off, prog) >= off + 8
  {
  }

  /**
   * A cut compaction is complete exactly if it is there up to the end of its first CRC tag, stray words apart; and then
   * it holds what is being written and nothing else.
   */
  lemma CutComplete(blank: seq<Byte>, torn: seq<Byte>, rev: Word, recs: seq<Rec>, prog: nat, k: nat)
    requires Fits(blank, rev, recs, prog) && CutAt(blank, torn, rev, recs, prog, k)
    ensures var n := Needed(blank, rev, recs, prog);
            && n <= |torn|
            && (Complete(torn, prog) ==> Rev(torn) == rev)
            && (if torn[..n] == Compacted(blank, rev, recs, prog).block[..n]
                then
                  && Complete(torn, prog)
                  && Carries(FetchBlock(torn, prog).found, Advance(Start(Header(blank, rev)), recs))
                else Complete(torn, prog) <==> Stray(blank, torn, rev, recs, prog, k))
  {
    hide FetchBlock, Unsealed, Committed, Advance, CommitEnd, InsideTag, ErasedFrom, Committable, Crc, ToLe, FromLe,
         StrayCrc, CutState, Carries;
    var b, whole, n := Header(blank, rev), Compacted(blank, rev, recs, prog).block, Needed(blank, rev, recs, prog);
    var st := Start(b);
    HeaderBytes(blank, rev, recs, prog);
    CompleteExactly(torn, prog);
    if torn[..n] == whole[..n] {
      Shorter(torn, whole, 4, n);
      WholeSeals(b, torn, prog, st, recs);
      CutCarries(blank, torn, rev, recs, prog, k);
      assert torn[0..4] == torn[..4] && whole[0..4] == whole[..4];
    } else if k <= 4 {
      ErasedLater(torn, k, 4);
      ErasedBehindRevision(torn, Crc(INIT, torn[..4]));
    } else {
      Shorter(torn, whole, 4, k);
      CutCommit(b, torn, prog, st, recs, k);
      assert torn[0..4] == torn[..4] && whole[0..4] == whole[..4];
    }
  }

  /** What a compaction holds that is cut behind its first CRC tag. */
  lemma CutCarries(blank: seq<Byte>, torn: seq<Byte>, rev: Word, recs: seq<Rec>, prog: nat, k: nat)
    requires Fits(blank, rev, recs, prog) && CutAt(blank, torn, rev, recs, prog, k)
    requires var n := Needed(blank, rev, recs, prog);
             n <= |torn| && torn[..n] == Compacted(blank, rev, recs, prog).block[..n]
    ensures Carries(FetchBlock(torn, prog).found, Advance(Start(Header(blank, rev)), recs))
  {
    hide Scan, Unsealed, Committed, Advance, CommitEnd, ErasedFrom, Committable, Crc, ToLe, FromLe, Carries;
    var b, whole, n := Header(blank, rev), Compacted(blank, rev, recs, prog).block, Needed(blank, rev, recs, prog);
    HeaderBytes(blank, rev, recs, prog);
    Shorter(torn, whole, 4, n);
    var m := if k < n then n else k;
    ErasedLater(torn, k, m);
    ScanCarries(b, torn, prog, Start(b), recs, m);
  }

  /**
   * The two-block switch is atomic. While the next revision of a directory is being written into the other block, at
   * every point a fetch of the pair, either way round, finds the old block as long as the first CRC tag of the new one
   * is not complete, stray words apart. From then on it finds the new block, and on it exactly the records being
   * written, followed by CRC tags; also when the revision wraps around.
   */
  lemma SwitchIsAtomic(whole: seq<Byte>, blank: seq<Byte>, torn: seq<Byte>, recs: seq<Rec>, prog: nat, k: nat)
    requires |whole| >= 4 && prog > 0 && Complete(whole, prog)
    requires Fits(blank, Next(Rev(whole)), recs, prog) && CutAt(blank, torn, Next(Rev(whole)), recs, prog, k)
    ensures var rev := Next(Rev(whole));
            var n, e := Needed(blank, rev, recs, prog), Advance(Start(Header(blank, rev)), recs);
            && n <= |torn|
            && (if torn[..n] == Compacted(blank, rev, recs, prog).block[..n] then
                  InForce(torn, whole, prog) && Carries(FetchBlock(torn, prog).found, e) && e.log == recs
                else InForce(whole, torn, prog) <==> !Stray(blank, torn, rev, recs, prog, k))
  {
    hide FetchBlock, Rev, Needed, Compacted, Next, Stray, Carries, Advance, Committable, Newer;
    var rev := Next(Rev(whole));
    CutComplete(blank, torn, rev, recs, prog, k);
    AdvanceShape(Start(Header(blank, rev)), recs);
    assert [] + recs == recs;
    InForceExactly(whole, torn, prog);
    InForceExactly(torn, whole, prog);
    NextIsNewer(Rev(whole));
  }

  // ---- Directories ----

  /** What a fetch finds is the directory after a commit: its entries, its tail, and the global state it stores. */
  ghost predicate IsAfter(g: Found, log: seq<Rec>, items: seq<Item>, delta: GState, n: nat, t: Tail)
    requires ItemsOk(items)
  {
    && SameEntries(g.log, log + Flatten(items), n) && Stored(g.log) == XorG(Stored(log), delta)
    && g.tail == t.pair && g.split == t.split
  }

  /**
   * An append is atomic: cut at any byte, a fetch finds exactly the old state or the directory after the commit,
   * depending on whether the first CRC tag is complete; stray words apart.
   */
  lemma AppendIsAtomic(before: seq<Byte>, torn: seq<Byte>, prog: nat, f: Found, items: seq<Item>, delta: GState, n: nat,
                       t: Tail, k: nat)
    requires 4 <= |before| == |torn| && prog > 0 && f == FetchBlock(before, prog).found && f.off > 0
    requires ItemsOk(items) && ItemsSound(items) && AllSound(f.log)
    requires t == ItemsTail(Tail(f.tail, f.split), items) && Replay(f.log + Flatten(items)).count == n
    requires AllCommittable(AppendRecs(f.log, items, delta))
    requires var recs := AppendRecs(f.log, items, delta);
             && CommitEnd(Advance(Resume(f), recs).off, prog) <= |before| && f.off < k <= |before|
             && torn[..k] == Committed(before, Resume(f), recs, prog).block[..k] && ErasedFrom(torn, k)
    ensures var recs := AppendRecs(f.log, items, delta);
            var m := Advance(Resume(f), recs).off + 8;
            if torn[..m] == Committed(before, Resume(f), recs, prog).block[..m]
            then IsAfter(FetchBlock(torn, prog).found, f.log, items, delta, n, t)
            else FetchBlock(torn, prog).found == f <==>
                 !(InsideTag(recs, k - f.off) && StrayCrc(torn, MarkOf(CutState(Resume(f), recs, k - f.off))))
  {
    hide FetchBlock, Committed, Advance, AppendRecs, Committable, Sound, Flatten, Stored, XorG, ItemOk, ItemSound,
         ItemsTail, ErasedFrom, InsideTag, StrayCrc, CutState, CommitEnd, SameEntries, Replay;
    var recs, st := AppendRecs(f.log, items, delta), Resume(f);
    SoundIsSized(f.log);
    CutAppend(before, torn, prog, recs, k);
    var g, e := FetchBlock(torn, prog).found, Advance(st, recs);
    var m := e.off + 8;
    if torn[..m] == Committed(before, st, recs, prog).block[..m] {
      AdvanceTail(st, recs);
      AppendTail(Tail(f.tail, f.split), f.log, items, delta);
      var crcs := g.log[|e.log|..];
      assert g.log == f.log + recs + crcs;
      AppendMeans(f.log, items, delta, crcs, n);
    }
  }

  /**
   * A compaction is atomic: cut at any byte, a fetch of the pair finds the old block in force or the directory after
   * the commit on the new one, depending on whether the first CRC tag of that is complete; stray words apart.
   */
  lemma CompactIsAtomic(whole: seq<Byte>, blank: seq<Byte>, torn: seq<Byte>, prog: nat, log: seq<Rec>, items: seq<Item>,
                        delta: GState, n: nat, t: Tail, k: nat)
    requires |whole| >= 4 && prog > 0 && Complete(whole, prog)
    requires AllSound(log) && AllShaped(log) && AllOnDisk(log) && ItemsOk(items) && ItemsSound(items)
    requires Compaction.Harmless(items) && n <= 1024 && TailOk(t.pair, t.split) && AllNamed(log + Flatten(items), n)
    requires var rev, recs := Next(Rev(whole)), CompactRecs(log, items, n, t, delta);
             Fits(blank, rev, recs, prog) && CutAt(blank, torn, rev, recs, prog, k)
    ensures var rev, recs := Next(Rev(whole)), CompactRecs(log, items, n, t, delta);
            var m := Needed(blank, rev, recs, prog);
            && m <= |torn|
            && (if torn[..m] == Compacted(blank, rev, recs, prog).block[..m] then
                  InForce(torn, whole, prog) && IsAfter(FetchBlock(torn, prog).found, log, items, delta, n, t)
                else InForce(whole, torn, prog) <==> !Stray(blank, torn, rev, recs, prog, k))
  {
    hide FetchBlock, Compacted, Advance, CompactRecs, Committable, Sound, Shaped, TailOk, Flatten, Stored, XorG, ItemOk,
         ItemSound, Next, OnDisk, InForce, AllNamed, Compaction.Harmless, Stray, SameEntries, CommitEnd, Rev, Crc,
         FromLe, ToLe;
    var rev, recs := Next(Rev(whole)), CompactRecs(log, items, n, t, delta);
    SwitchIsAtomic(whole, blank, torn, recs, prog, k);
    var g, st, m := FetchBlock(torn, prog).found, Start(Header(blank, rev)), Needed(blank, rev, recs, prog);
    if torn[..m] == Compacted(blank, rev, recs, prog).block[..m] {
      AdvanceTail(st, recs);
      CompactTail(log, items, n, t, delta);
      var crcs := g.log[|recs|..];
      assert g.log == recs + crcs;
      CompactMeans(log, items, delta, crcs, n, t);
    }
  }

  /** Whatever else the other block holds, its bytes decide: the old block stays in force while they seal nothing. */
  lemma UnsealedStaysOut(whole: seq<Byte>, other: seq<Byte>, prog: nat)
    requires |whole| >= 4 && |other| >= 4 && prog > 0 && Complete(whole, prog)
    requires !Newer(Rev(whole), Rev(other))
    ensures InForce(whole, other, prog) <==> Unsealed(other, Mark(4, BLANK, Crc(INIT, other[..4])))
  {
    hide FetchBlock, Rev, Newer, Unsealed, Crc;
    CompleteExactly(other, prog);
    InForceExactly(whole, other, prog);
  }

  // ---- Commits given up ----

  /** What a commit leaves that finds no room for one of its attributes: those before it, behind where it began. */
  ghost predicate GivenUp(before: seq<Byte>, after: seq<Byte>, off: nat, ptag: Word, recs: seq<Rec>) {
    AllCommittable(recs) && exists n: nat :: WrittenUpTo(before, after, off, ptag, recs, n)
  }

  predicate WrittenUpTo(before: seq<Byte>, after: seq<Byte>, off: nat, ptag: Word, recs: seq<Rec>, n: nat)
    requires AllCommittable(recs)
  {
    && n <= |recs| && off + |Encode(recs[..n], ptag)| <= |before|
    && after == Put(before, off, Encode(recs[..n], ptag))
  }

  /** Behind all of some records, and nothing else, the walk is not sealed. */
  lemma WrittenUnsealed(before: seq<Byte>, after: seq<Byte>, st: State, recs: seq<Rec>, n: nat)
    requires AllCommittable(recs) && WrittenUpTo(before, after, st.off, st.ptag, recs, n) && n > 0
    requires ErasedFrom(before, st.off) && st.best.off <= st.off
    ensures Unsealed(after, MarkOf(st))
  {
    hide Unsealed, Encode, Committable, InsideTag, Put;
    var d := |Encode(recs[..n], st.ptag)|;
    InsideLast(recs[..n], st.ptag, d);
    EncodedSome(recs[..n], st.ptag);
    forall i | st.off + d <= i < |after| ensures after[i] == ERASED {
      assert after[i] == after[st.off + d..][i - st.off - d] == before[st.off + d..][i - st.off - d];
    }
    CutInRecs(after, st, recs[..n], d);
  }

  lemma EncodedSome(recs: seq<Rec>, ptag: Word)
    requires AllCommittable(recs) && recs != []
    ensures |Encode(recs, ptag)| > 0 && !InsideTag([], 0)
  {
    hide Pack, Committable;
    RecordParts(recs[0], ptag);
  }

  lemma NothingWritten(before: seq<Byte>, after: seq<Byte>, off: nat, ptag: Word, recs: seq<Rec>)
    requires AllCommittable(recs) && WrittenUpTo(before, after, off, ptag, recs, 0)
    ensures after == before
  {
  }

  /** An append that is given up changes nothing, on a block that is erased behind its commits. */
  lemma GivenUpAppend(before: seq<Byte>, after: seq<Byte>, prog: nat, recs: seq<Rec>)
    requires |before| >= 4 && prog > 0 && ErasedFrom(before, FetchBlock(before, prog).found.off)
    requires var f := FetchBlock(before, prog).found;
             0 < f.off <= |before| && AllWellSized(f.log) && GivenUp(before, after, f.off, f.etag, recs)
    ensures |after| == |before| && FetchBlock(after, prog).found == FetchBlock(before, prog).found
  {
    hide FetchBlock, Unsealed, Encode, ErasedFrom, Committable;
    var f := FetchBlock(before, prog).found;
    var n: nat :| WrittenUpTo(before, after, f.off, f.etag, recs, n);
    if n == 0 {
      NothingWritten(before, after, f.off, f.etag, recs);
    } else {
      WrittenUnsealed(before, after, Resume(f), recs, n);
      TornCommitExactly(before, after, prog);
    }
  }

  /** A compaction that is given up leaves a block that does not count. */
  lemma GivenUpCompaction(blank: seq<Byte>, rev: Word, after: seq<Byte>, prog: nat, recs: seq<Rec>)
    requires |blank| >= 4 && prog > 0 && ErasedFrom(blank, 4)
    requires GivenUp(Header(blank, rev), after, 4, BLANK, recs)
    ensures |after| == |blank| && !Complete(after, prog)
  {
    hide FetchBlock, Unsealed, Encode, Committable, ToLe, Crc;
    var b := Header(blank, rev);
    var n: nat :| WrittenUpTo(b, after, 4, BLANK, recs, n);
    HeaderErased(blank, rev);
    CompleteExactly(after, prog);
    if n == 0 {
      NothingWritten(b, after, 4, BLANK, recs);
      ErasedBehindRevision(after, Crc(INIT, after[..4]));
    } else {
      WrittenUnsealed(b, after, Start(after), recs, n);
    }
  }

  lemma HeaderErased(blank: seq<Byte>, rev: Word)
    requires |blank| >= 4 && ErasedFrom(blank, 4)
    ensures ErasedFrom(Header(blank, rev), 4)
  {
    hide ToLe;
    var b := Header(blank, rev);
    forall i | 4 <= i < |b| ensures b[i] == ERASED {
      assert b[i] == b[4..][i - 4] == blank[4..][i - 4];
    }
  }
}
