/** struct lfs_commit: the writer that lays a commit out on a block, byte by byte. */
module Committer {
  import opened Arith
  import opened Words
  import opened Tags
  import opened Log
  import opened Checksum
  import opened Fetch
  import opened Commit

  class LfsCommit {
    const block: array<Byte>
    const begin: nat
    /** Attributes may not reach beyond this offset, so that a CRC tag always fits. */
    const end: nat
    var off: nat
    var ptag: Word
    var crc: Word

    /** The checksum covers everything written since the beginning of the commit. */
    ghost predicate Valid()
      reads this, block
    {
      begin <= off <= end && end + 8 <= block.Length && crc == Crc(INIT, block[begin..off])
    }

    constructor (block: array<Byte>, off: nat, ptag: Word)
      requires off + 8 <= block.Length
      ensures Valid() && this.block == block && begin == off && this.off == off && this.ptag == ptag
      ensures crc == INIT && end == block.Length - 8
    {
      this.block, begin, end := block, off, block.Length - 8;
      this.off, this.ptag, crc := off, ptag, INIT;
    }

    /** lfs_bd_prog of the block being written. */
    method Program(at: nat, bytes: seq<Byte>)
      requires at + |bytes| <= block.Length
      modifies block
      ensures block[..] == Put(old(block[..]), at, bytes)
    {
      ghost var before := block[..];
      forall i | 0 <= i < |bytes| {
        block[at + i] := bytes[i];
      }
      assert block[..] == Put(before, at, bytes);
    }

    /** lfs_dir_commitprog. */
    method CommitProg(bytes: seq<Byte>)
      requires Valid() && off + |bytes| <= end
      modifies this, block
      ensures Valid() && off == old(off) + |bytes| && ptag == old(ptag)
      ensures block[..] == Put(old(block[..]), old(off), bytes)
      ensures crc == Crc(old(crc), bytes)
    {
      ghost var before := block[..];
      var at := off;
      Program(at, bytes);
      crc := LfsCrc(crc, bytes);
      off := at + |bytes|;
      CrcConcat(INIT, before[begin..at], bytes);
      PutSlice(before, begin, at, bytes);
    }

    /** lfs_dir_commitattr: false is LFS_ERR_NOSPC, and nothing is written then. */
    method CommitAttr(r: Rec) returns (ok: bool)
      requires Valid() && Committable(r)
      modifies this, block
      ensures Valid() && ok == (old(off) + r.tag.DSize() <= end)
      ensures ok ==> off == old(off) + r.tag.DSize() && ptag == Pack(r.tag)
      ensures ok ==> block[..] == Put(old(block[..]), old(off), EncodeRec(r, old(ptag)))
      ensures ok ==> crc == Crc(old(crc), EncodeRec(r, old(ptag)))
      ensures !ok ==> block[..] == old(block[..]) && off == old(off) && ptag == old(ptag) && crc == old(crc)
    {
      hide Crc, Xor, Pack, Type1, WellSized;
      if off + r.tag.DSize() > end {
        return false;
      }
      ghost var before, start := block[..], off;
      ghost var head := ToBe(Xor(Pack(r.tag), ptag));
      CommitProg(ToBe(Xor(Pack(r.tag), ptag)));
      CommitProg(r.data);
      ptag := Pack(r.tag);
      PutTwice(before, start, head, r.data);
      CrcConcat(old(crc), head, r.data);
      return true;
    }

    /** The writer has put some attributes behind where it stood. */
    ghost predicate Wrote(before: seq<Byte>, start: nat, tag0: Word, crc0: Word, recs: seq<Rec>)
      reads this, block
      requires AllCommittable(recs)
    {
      var bytes := Encode(recs, tag0);
      && off == start + |bytes| <= |before| && block[..] == Put(before, start, bytes)
      && ptag == LastTag(recs, tag0) && crc == Crc(crc0, bytes)
    }

    /** The attributes of a commit in order; stops at the first that does not fit, with n of them written. */
    method CommitAttrs(recs: seq<Rec>) returns (ok: bool, ghost n: nat)
      requires Valid() && AllCommittable(recs)
      modifies this, block
      ensures Valid() && ok == (old(off) + |Encode(recs, old(ptag))| <= end)
      ensures n <= |recs| && (ok ==> n == |recs|) && Wrote(old(block[..]), old(off), old(ptag), old(crc), recs[..n])
      ensures old(off) <= off && block[..old(off)] == old(block[..])[..old(off)]
      decreases |recs|
    {
      hide Xor, Pack, Type1, WellSized, EncodeRec, Encode, LastTag, Put, Crc, Committable;
      ghost var before, start, tag0, crc0 := block[..], off, ptag, crc;
      PutNothing(before, start);
      EncodeNothing(ptag, crc);
      assert recs[..0] == [];
      if recs == [] {
        return true, 0;
      }
      EncodeCons(recs, ptag);
      ok := CommitAttr(recs[0]);
      if !ok {
        n := 0;
        return;
      }
      ghost var middle, tag1 := block[..], ptag;
      var rest := recs[1..];
      ghost var m;
      ok, m := CommitAttrs(rest);
      n := m + 1;
      EncodeFirst(recs, m, tag0);
      ghost var x, y := EncodeRec(recs[0], tag0), Encode(rest[..m], tag1);
      SamePrefix(before, start, x, middle, block[..]);
      PutTwice(before, start, x, y);
      CrcConcat(crc0, x, y);
    }

    /**
     * One segment of the write check, read a byte at a time; at the place where the committer's checksum was stored it
     * stops to compare.
     */
    method CheckSegment(from: nat, sum: nat, stop: nat, expected: Word) returns (ok: bool)
      requires from <= stop <= block.Length && (from <= sum ==> sum < stop)
      ensures ok == SegmentPasses(block[..], from, stop, sum, expected)
    {
      ghost var c := block[..];
      var crc := INIT;
      for i := from to stop
        invariant crc == Crc(INIT, c[from..i])
        invariant from <= sum < i ==> Crc(INIT, c[from..sum]) == expected
      {
        if i == sum && crc != expected {
          return false;
        }
        crc := LfsCrc(crc, [block[i]]);
        CrcOneMore(c, from, i);
      }
      ok := crc == Word(0);
    }

    /** The padding arithmetic of the commit: where the next CRC tag goes, given where this one's data starts. */
    method NextFooter(off: nat, stop: nat) returns (noff: nat)
      requires off >= 4 && off + 4 <= stop
      ensures noff == FooterEnd(off - 4, stop)
    {
      noff := Min(stop - off, 0x3fe) + off;
      if noff < stop {
        noff := Min(noff, stop - 8);
      }
    }

    /**
     * Reads the erased state of the next program unit; past the end of the block the read fails and leaves all ones.
     */
    method ReadReset(noff: nat) returns (reset: bool)
      ensures reset == NeedsReset(block[..], noff)
    {
      var word := BLANK;
      if noff + 4 <= block.Length {
        word := FromBe(block[noff..noff + 4]);
        assert block[..][noff..noff + 4] == block[noff..noff + 4];
      }
      BlankIsInvalid();
      reset := IsValid(word);
    }

    /** One turn of the loop that fills up the remainder of a commit with CRC tags. */
    method CommitFooter(stop: nat)
      requires begin <= off && off + 8 <= stop <= block.Length
      modifies this, block
      ensures off == FooterEnd(old(off), stop) && crc == INIT
      ensures block[..] == PutFooter(old(block[..]), old(off), old(ptag), old(crc), stop)
      ensures ptag == Chain(Pack(FooterTag(old(block[..]), old(off), stop)))
    {
      hide Crc, Xor;
      ghost var before := block[..];
      var at := off;
      var noff := NextFooter(at + 4, stop);
      var reset := ReadReset(noff);
      var t := Tag(if reset then 0x501 else TYPE_CRC, NO_ID, noff - (at + 4));
      assert t == FooterTag(before, at, stop);
      ChainOfFooter(before, at, stop);
      var head := ToBe(Xor(Pack(t), ptag));
      var sum := LfsCrc(crc, head);
      Program(at, head + ToLe(sum));
      off := at + 4 + t.size;
      ptag := if reset then Flip(Pack(t)) else Pack(t);
      crc := INIT;
    }

    /** The padding loop of lfs_dir_commitcrc: CRC tags up to the aligned end. */
    method CommitFooters(stop: nat)
      requires begin <= off && off + 8 <= stop <= block.Length
      modifies this, block
      ensures off == stop && Closed(block[..], ptag) == Close(old(block[..]), old(off), old(ptag), old(crc), stop)
    {
      ghost var all := Close(block[..], off, ptag, crc, stop);
      while off < stop
        invariant begin <= off <= stop && (off == stop || off + 8 <= stop)
        invariant Close(block[..], off, ptag, crc, stop) == all
      {
        CloseStep(block[..], off, ptag, crc, stop);
        CommitFooter(stop);
      }
      CloseDone(block[..], ptag, crc, stop);
    }

    /**
     * The write check of lfs_dir_commitcrc: it passes exactly when every segment, read back, has checksum 0 and the
     * first had the committer's checksum just before its end. sum is where that checksum is stored.
     */
    method CheckWritten(sum: nat, expected: Word, stop: nat) returns (ok: bool)
      requires begin + 4 <= sum && sum + 4 <= stop <= block.Length
      ensures ok == (Crc(INIT, block[..][begin..sum]) == expected && Sealed(block[..], begin, sum - 4, stop))
    {
      hide Crc, Sealed;
      ghost var c := block[..];
      var from: nat, noff: nat := begin, sum;
      while from < stop
        invariant from == stop || (from + 4 <= noff && noff + 4 <= stop)
        invariant from <= sum ==> noff == sum
        invariant Passes(c, begin, sum, sum, expected, stop) == Passes(c, from, noff, sum, expected, stop)
        decreases stop - from
      {
        ok := CheckSegment(from, sum, noff + 4, expected);
        if !ok {
          break;
        }
        from := NextFooter(noff, stop);
        noff := from + 4;
      }
      ok := from >= stop;
      PassesIsSealed(c, begin, sum, expected, stop);
    }

    /** lfs_dir_commitcrc: pads the commit to a program unit with CRC tags and checks what it wrote. */
    method CommitCrc(prog: nat) returns (ok: bool)
      requires Valid() && prog > 0 && CommitEnd(off, prog) <= block.Length
      modifies this, block
      ensures ok && off == CommitEnd(old(off), prog)
      ensures Closed(block[..], ptag) == Close(old(block[..]), old(off), old(ptag), old(crc), off)
    {
      hide Crc, Xor, Pack, FooterTag, Close, Sealed;
      var stop := AlignUp(off + 8, prog);
      ghost var before, start, tag0, crc0 := block[..], off, ptag, crc;
      var sum, expected := FirstFooter(stop);
      CommitFooters(stop);
      WrittenPasses(before, begin, start, tag0, crc0, stop);
      ok := CheckWritten(sum, expected, stop);
    }

    /** Where the first CRC tag stores its checksum, and that checksum. */
    method FirstFooter(stop: nat) returns (sum: nat, expected: Word)
      requires off + 8 <= stop <= block.Length
      ensures sum == off + 4
      ensures expected == Crc(crc, ToBe(Xor(Pack(FooterTag(block[..], off, stop)), ptag)))
    {
      sum := off + 4;
      var noff := NextFooter(sum, stop);
      var reset := ReadReset(noff);
      var t := Tag(if reset then 0x501 else TYPE_CRC, NO_ID, noff - sum);
      assert t == FooterTag(block[..], off, stop);
      expected := LfsCrc(crc, ToBe(Xor(Pack(t), ptag)));
    }
  }

  lemma CrcOneMore(c: seq<Byte>, from: nat, i: nat)
    requires from <= i < |c|
    ensures Crc(INIT, c[from..i + 1]) == Crc(Crc(INIT, c[from..i]), [c[i]])
  {
    assert c[from..i + 1] == c[from..i] + [c[i]];
    CrcConcat(INIT, c[from..i], [c[i]]);
  }

  /** What the write check asks of one segment. */
  predicate SegmentPasses(c: seq<Byte>, from: nat, stop: nat, sum: nat, expected: Word)
    requires from <= stop <= |c| && (from <= sum ==> sum < stop)
  {
    Crc(INIT, c[from..stop]) == Word(0) && (from <= sum ==> Crc(INIT, c[from..sum]) == expected)
  }

  /** What the write check asks of the segments from one on; noff is where that segment's checksum is stored. */
  predicate Passes(c: seq<Byte>, from: nat, noff: nat, sum: nat, expected: Word, stop: nat)
    requires from >= stop || (from + 4 <= noff && noff + 4 <= stop <= |c|)
    requires from <= sum ==> noff == sum
    decreases stop - from
  {
    from >= stop
    || (SegmentPasses(c, from, noff + 4, sum, expected)
        && Passes(c, FooterEnd(noff - 4, stop), FooterEnd(noff - 4, stop) + 4, sum, expected, stop))
  }

  lemma {:induction false} LaterPasses(c: seq<Byte>, from: nat, sum: nat, expected: Word, stop: nat)
    requires sum < from && (from == stop || from + 8 <= stop <= |c|)
    ensures Passes(c, from, from + 4, sum, expected, stop) == (from == stop || Sealed(c, from, from, stop))
    decreases stop - from
  {
    if from < stop {
      LaterPasses(c, FooterEnd(from, stop), sum, expected, stop);
    }
  }

  lemma PassesIsSealed(c: seq<Byte>, from: nat, sum: nat, expected: Word, stop: nat)
    requires from + 4 <= sum && sum + 4 <= stop <= |c|
    ensures Passes(c, from, sum, sum, expected, stop) ==
            (Crc(INIT, c[from..sum]) == expected && Sealed(c, from, sum - 4, stop))
  {
    LaterPasses(c, FooterEnd(sum - 4, stop), sum, expected, stop);
  }

  /** What lfs_dir_commitcrc has written meets its write check. */
  lemma WrittenPasses(b: seq<Byte>, from: nat, off: nat, ptag: Word, crc: Word, stop: nat)
    requires from <= off && off + 8 <= stop <= |b| && crc == Crc(INIT, b[from..off])
    ensures var c := Close(b, off, ptag, crc, stop).block;
            && Sealed(c, from, off, stop)
            && Crc(INIT, c[from..off + 4]) == Crc(crc, ToBe(Xor(Pack(FooterTag(b, off, stop)), ptag)))
  {
    CloseIsSealed(b, from, off, ptag, crc, stop);
    SegmentCrc(b, from, off, ptag, crc, stop);
  }

  /** Every segment of a closed block, from the first CRC tag at off, has checksum 0. */
  predicate Sealed(c: seq<Byte>, from: nat, off: nat, stop: nat)
    requires from <= off && off + 8 <= stop <= |c|
    decreases stop - off
  {
    var next := FooterEnd(off, stop);
    Crc(INIT, c[from..off + 8]) == Word(0) && (next == stop || Sealed(c, next, next, stop))
  }

  lemma {:induction false} CloseIsSealed(b: seq<Byte>, from: nat, off: nat, ptag: Word, crc: Word, stop: nat)
    requires from <= off && off + 8 <= stop <= |b| && crc == Crc(INIT, b[from..off])
    ensures Sealed(Close(b, off, ptag, crc, stop).block, from, off, stop)
    decreases stop - off
  {
    var next := FooterEnd(off, stop);
    SegmentCrc(b, from, off, ptag, crc, stop);
    CloseStep(b, off, ptag, crc, stop);
    if next < stop {
      var d := PutFooter(b, off, ptag, crc, stop);
      assert d[next..next] == [];
      CloseIsSealed(d, next, next, Chain(Pack(FooterTag(b, off, stop))), INIT, stop);
    }
  }

  /** A segment of a closed block has checksum 0, and the stored checksum is the one of what precedes it. */
  lemma SegmentCrc(b: seq<Byte>, from: nat, off: nat, ptag: Word, crc: Word, stop: nat)
    requires from <= off && off + 8 <= stop <= |b| && crc == Crc(INIT, b[from..off])
    ensures var c := Close(b, off, ptag, crc, stop).block;
            && Crc(INIT, c[from..off + 4]) == Crc(crc, ToBe(Xor(Pack(FooterTag(b, off, stop)), ptag)))
            && Crc(INIT, c[from..off + 8]) == Word(0)
  {
    var c := Close(b, off, ptag, crc, stop).block;
    CloseFrame(b, off, ptag, crc, stop);
    SameSlice(c, b, from, off, off);
    CloseHead(b, off, ptag, crc, stop);
    FooterCrc(c, from, off, Pack(FooterTag(b, off, stop)), ptag, crc);
  }

  lemma FooterCrc(c: seq<Byte>, from: nat, off: nat, tag: Word, ptag: Word, crc: Word)
    requires from <= off && Holds(c, off, FooterBytes(tag, ptag, crc)) && crc == Crc(INIT, c[from..off])
    ensures Crc(INIT, c[from..off + 4]) == Crc(crc, ToBe(Xor(tag, ptag)))
    ensures Crc(INIT, c[from..off + 8]) == Word(0)
  {
    hide Crc, Xor, FooterBytes, Holds;
    var head := ToBe(Xor(tag, ptag));
    ReadsFooter(c, off, tag, ptag, crc);
    assert c[from..off + 4] == c[from..off] + head;
    CrcConcat(INIT, c[from..off], head);
    assert c[from..off + 8] == c[from..off + 4] + ToLe(Crc(crc, head));
    CrcResidue(INIT, c[from..off + 4]);
  }

  lemma BlankIsInvalid()
    ensures !IsValid(BLANK)
  {
  }

  lemma PutSlice(before: seq<Byte>, begin: nat, off: nat, bytes: seq<Byte>)
    requires begin <= off && off + |bytes| <= |before|
    ensures Put(before, off, bytes)[begin..off + |bytes|] == before[begin..off] + bytes
  {
  }

  lemma EncodeNothing(ptag: Word, crc: Word)
    ensures Encode([], ptag) == [] && LastTag([], ptag) == ptag && Crc(crc, []) == crc
  {
  }

  lemma EncodeCons(recs: seq<Rec>, ptag: Word)
    requires AllCommittable(recs) && recs != []
    ensures Encode(recs, ptag) == EncodeRec(recs[0], ptag) + Encode(recs[1..], Pack(recs[0].tag))
    ensures LastTag(recs, ptag) == LastTag(recs[1..], Pack(recs[0].tag))
  {
    hide Pack, EncodeRec, Committable;
  }

  lemma EncodeFirst(recs: seq<Rec>, m: nat, ptag: Word)
    requires AllCommittable(recs) && m < |recs|
    ensures Encode(recs[..m + 1], ptag) == EncodeRec(recs[0], ptag) + Encode(recs[1..][..m], Pack(recs[0].tag))
    ensures LastTag(recs[..m + 1], ptag) == LastTag(recs[1..][..m], Pack(recs[0].tag))
  {
    hide Pack, EncodeRec, Committable;
    var some := recs[..m + 1];
    assert some[0] == recs[0] && some[1..] == recs[1..][..m];
    EncodeCons(some, ptag);
  }

  lemma PutNothing(b: seq<Byte>, at: nat)
    requires at <= |b|
    ensures Put(b, at, []) == b
  {
  }

  lemma SamePrefix(before: seq<Byte>, start: nat, x: seq<Byte>, middle: seq<Byte>, after: seq<Byte>)
    requires start + |x| <= |before| == |after| && middle == Put(before, start, x)
    requires after[..start + |x|] == middle[..start + |x|]
    ensures after[..start] == before[..start]
  {
    assert after[..start] == after[..start + |x|][..start];
    assert before[..start] == middle[..start + |x|][..start];
  }
}
