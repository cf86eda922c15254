/** Reading a log forward, as lfs_dir_traverse does: each tag is chained to the one before it. */
module LogReader {
  import opened Words
  import opened Tags
  import opened Log
  import opened Lookup

  /** Where the k-th record of an encoded log begins, and the word it is chained to. */
  datatype Point = Point(at: nat, ptag: Word)

  ghost function PointOf(block: seq<Byte>, off: nat, etag: Word, log: seq<Rec>, k: nat): (p: Point)
    requires off <= |block| && Encodes(block, off, etag, log) && k <= |log|
    ensures p.at <= off && Encodes(block, p.at, p.ptag, log[..k])
    decreases |log|
  {
    hide Xor, BeAt, Unpack, Masked;
    if k == |log| then (assert log[..k] == log; Point(off, etag))
    else
      var n := |log| - 1;
      var at := off - log[n].tag.DSize();
      assert log[..n][..k] == log[..k];
      PointOf(block, at, Xor(BeAt(block, at), etag), log[..n], k)
  }

  lemma PointEnd(block: seq<Byte>, off: nat, etag: Word, log: seq<Rec>)
    requires off <= |block| && Encodes(block, off, etag, log)
    ensures PointOf(block, off, etag, log, |log|) == Point(off, etag)
  {
    hide Xor, BeAt, Unpack, Masked;
  }

  /** From one record to the next. */
  lemma {:induction false} PointStep(block: seq<Byte>, off: nat, etag: Word, log: seq<Rec>, k: nat)
    requires off <= |block| && Encodes(block, off, etag, log) && k < |log|
    ensures var p, q := PointOf(block, off, etag, log, k), PointOf(block, off, etag, log, k + 1);
            && 4 <= p.at && q.at == p.at + log[k].tag.DSize() <= off
            && q.ptag == Xor(BeAt(block, p.at), p.ptag) && log[k].tag == Unpack(q.ptag)
            && log[k].data == block[p.at + 4..q.at]
    decreases |log|
  {
    hide Xor, BeAt, Unpack, Masked;
    var n := |log| - 1;
    var at := off - log[n].tag.DSize();
    var e := Xor(BeAt(block, at), etag);
    EncodesBounds(block, at, e, log[..n]);
    if k == n {
      PointEnd(block, at, e, log[..n]);
      XorBack(BeAt(block, at), etag);
    } else {
      PointStep(block, at, e, log[..n], k);
    }
  }

  lemma {:induction false} PointZero(block: seq<Byte>, off: nat, etag: Word, log: seq<Rec>)
    requires off <= |block| && Encodes(block, off, etag, log)
    ensures var p := PointOf(block, off, etag, log, 0); p.at == 4 && Masked(p.ptag) == Masked(BLANK)
    decreases |log|
  {
    hide Xor, BeAt, Unpack, Masked;
    if log != [] {
      var n := |log| - 1;
      var at := off - log[n].tag.DSize();
      PointZero(block, at, Xor(BeAt(block, at), etag), log[..n]);
    }
  }

  /** The tag at a place, as the code forms it: with the valid bit set. */
  function ValidTagAt(block: seq<Byte>, at: nat, ptag: Word): Word
    requires at + 4 <= |block|
  {
    Marked(Xor(BeAt(block, at), ptag))
  }

  lemma ValidTagFields(block: seq<Byte>, at: nat, ptag: Word, p: Word)
    requires at + 4 <= |block| && Masked(ptag) == Masked(p)
    ensures Masked(ValidTagAt(block, at, ptag)) == Masked(Xor(BeAt(block, at), p))
    ensures Unpack(ValidTagAt(block, at, ptag)) == Unpack(Xor(BeAt(block, at), p))
  {
    hide BeAt, Masked, Marked, Xor, Unpack;
    MaskedMarked(Xor(BeAt(block, at), ptag));
    MaskedXor(BeAt(block, at), ptag, p);
    FieldsIgnoreValidBit(ValidTagAt(block, at, ptag), Xor(BeAt(block, at), p));
  }

  /** The records of a log in order, from the first tag to the end of the last commit. */
  method ReadLog(block: array<Byte>, stop: nat, ghost etag: Word, ghost log: seq<Rec>) returns (recs: seq<Rec>)
    requires stop <= block.Length && Encodes(block[..], stop, etag, log)
    ensures recs == log
  {
    hide BeAt, Masked, Marked, Xor, Unpack, Encodes;
    ghost var c := block[..];
    recs := [];
    var off, ptag := 0, BLANK;
    PointZero(c, stop, etag, log);
    BlankDeleted();
    assert Masked(BLANK) == Masked(PointOf(c, stop, etag, log, 0).ptag);
    while off + Unpack(ptag).DSize() < stop
      invariant |recs| <= |log| && recs == log[..|recs|]
      invariant off + Unpack(ptag).DSize() == PointOf(c, stop, etag, log, |recs|).at
      invariant Masked(ptag) == Masked(PointOf(c, stop, etag, log, |recs|).ptag)
      decreases |log| - |recs|
    {
      ghost var k := |recs|;
      off := off + Unpack(ptag).DSize();
      LastPoint(c, stop, etag, log, k);
      PointStep(c, stop, etag, log, k);
      ValidTagFields(c, off, ptag, PointOf(c, stop, etag, log, k).ptag);
      var word := FromBe(block[off..off + 4]);
      assert c[off..off + 4] == block[off..off + 4];
      WordAt(c, off);
      ptag := Marked(Xor(word, ptag));
      var t := Unpack(ptag);
      assert c[off + 4..off + t.DSize()] == block[off + 4..off + t.DSize()];
      recs := recs + [Rec(t, block[off + 4..off + t.DSize()])];
    }
    LastPoint(c, stop, etag, log, |recs|);
  }

  lemma BlankDeleted()
    ensures Unpack(BLANK).DSize() == 4
  {
  }

  lemma WordAt(block: seq<Byte>, at: nat)
    requires at + 4 <= |block|
    ensures BeAt(block, at) == FromBe(block[at..at + 4])
  {
  }

  /** Only the last point is at the end. */
  lemma LastPoint(block: seq<Byte>, off: nat, etag: Word, log: seq<Rec>, k: nat)
    requires off <= |block| && Encodes(block, off, etag, log) && k <= |log|
    ensures PointOf(block, off, etag, log, k).at >= off ==> k == |log|
    ensures k == |log| ==> PointOf(block, off, etag, log, k) == Point(off, etag)
  {
    if k < |log| {
      PointStep(block, off, etag, log, k);
    }
  }
}
