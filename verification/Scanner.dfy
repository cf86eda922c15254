/**
 * lfs_dir_fetchmatch: the loops that read a metadata block, looking for a name on the way, and choose between a pair's
 * two blocks.
 */
module Scanner {
  import opened Words
  import opened Tags
  import opened Log
  import opened Checksum
  import opened Fetch
  import opened Switch
  import opened Names

  /** The number of entries as the scan counts them, in a uint16_t. */
  function CountAfter(count: nat, t: Tag): nat {
    if Type1(t.kind) == TYPE_NAME then if t.id >= count then t.id + 1 else count
    else if Type1(t.kind) == TYPE_SPLICE then (count + Splice(t.kind)) % 0x1_0000
    else count
  }

  function Count(log: seq<Rec>): nat {
    if log == [] then 0 else CountAfter(Count(log[..|log| - 1]), log[|log| - 1].tag)
  }

  /** The checksum of the bytes [from, stop) of a block, one byte at a time. */
  method CrcOver(block: array<Byte>, from: nat, stop: nat, crc0: Word) returns (crc: Word)
    requires from <= stop <= block.Length
    ensures crc == Crc(crc0, block[from..stop])
  {
    crc := crc0;
    for j := from to stop
      invariant crc == Crc(crc0, block[from..j])
    {
      crc := LfsCrc(crc, [block[j]]);
      CrcConcat(crc0, block[from..j], [block[j]]);
      assert block[from..j + 1] == block[from..j] + [block[j]];
    }
  }

  lemma SliceOf(block: seq<Byte>, i: nat, j: nat)
    requires i <= j <= |block|
    ensures Bytes(block, i, j) == block[i..j]
  {
  }

  /** What a scan has found of a name, if it looks for one: lfs_dir_fetch does not. */
  function BestFor(log: seq<Rec>, name: Option<seq<Byte>>): Word
    requires AllFit(log)
  {
    if name.Some? then BestOf(log, name.value) else BLANK
  }

  function BestNext(best: Word, name: Option<seq<Byte>>, r: Rec): Word
    requires r.tag.Fits()
  {
    if name.Some? then BestAfter(best, name.value, r) else best
  }

  lemma BestSnoc(log: seq<Rec>, r: Rec, name: Option<seq<Byte>>)
    requires AllFit(log) && r.tag.Fits()
    ensures AllFit(log + [r])
    ensures BestFor(log + [r], name) == BestNext(BestFor(log, name), name, r)
    ensures Type1(r.tag.kind) == TYPE_CRC ==> BestFor(log + [r], name) == BestFor(log, name)
  {
    hide NameCmp, Moved, Marked, Unpack;
    assert (log + [r])[..|log|] == log;
    CrcIsNoName(r.tag.kind);
  }

  lemma CrcIsNoName(kind: bv11)
    ensures Type1(kind) == TYPE_CRC ==> Type1(kind) != TYPE_SPLICE && !Findable(kind)
  {
  }

  /**
   * The scan of one block: where the last complete commit ends, the tag it ends with, the tail and the count it leaves,
   * and whether what follows is erased. off == 0 means that there is none. best is besttag.
   */
  method ScanBlock(block: array<Byte>, prog: nat, rev: Word, name: Option<seq<Byte>>)
    returns (off: nat, etag: Word, count: nat, tail: Pair, split: bool, erased: bool, best: Word, ghost log: seq<Rec>)
    requires block.Length >= 4 && prog > 0 && ToLe(rev) == block[..4]
    ensures var f := FetchBlock(block[..], prog).found;
            && off == f.off && etag == f.etag && tail == f.tail && split == f.split && count == Count(f.log)
    ensures erased == FetchBlock(block[..], prog).erased
    ensures log == FetchBlock(block[..], prog).found.log && AllFit(log) && best == BestFor(log, name)
  {
    hide Crc, Xor, FromBe, FromLe, Flip, Unpack, IsValid, Type1, Scan, CountAfter, Count, BestFor, BestNext, AllFit;
    ghost var c := block[..];
    var at, ptag := 4, BLANK;
    var crc := LfsCrc(INIT, ToLe(rev));
    var tempcount, temptail, tempsplit := 0, NULL_PAIR, false;
    off, etag, count, tail, split, erased, best, log := 0, BLANK, 0, NULL_PAIR, false, false, BLANK, [];
    var tempbest := BLANK;
    NothingFound(name);
    ghost var st := Start(c);
    CountSnoc([], Rec(Tag(0, 0, 0), []));
    while true
      invariant st == State(at, ptag, crc, st.log, temptail, tempsplit, Found(off, etag, log, tail, split))
      invariant Scan(c, prog, st) == FetchBlock(c, prog)
      invariant tempcount == Count(st.log) && count == Count(log)
      invariant AllFit(st.log) && AllFit(log) && tempbest == BestFor(st.log, name) && best == BestFor(log, name)
      decreases block.Length - at
    {
      ScanUnfold(c, prog, st);
      if at + 4 > block.Length {
        erased := false;
        break;
      }
      var head := block[at..at + 4];
      var sum := LfsCrc(crc, head);
      var tag := Xor(FromBe(head), ptag);
      var t := Unpack(tag);
      SliceOf(c, at, at + 4);
      if !IsValid(tag) {
        erased := Type1(Unpack(ptag).kind) == TYPE_CRC && off % prog == 0;
        break;
      }
      if at + t.DSize() > block.Length {
        erased := false;
        break;
      }
      SliceOf(c, at + 4, at + t.DSize());
      ghost var r := Rec(t, c[at + 4..at + t.DSize()]);
      CountSnoc(st.log, r);
      BestSnoc(st.log, r, name);
      if Type1(t.kind) == TYPE_CRC {
        if at + 8 > block.Length {
          erased := false;
          break;
        }
        SliceOf(c, at + 4, at + 8);
        if sum != FromLe(block[at + 4..at + 8]) {
          erased := false;
          break;
        }
        CountIgnoresCrc(tempcount, t);
        st := Seal(st, at + t.DSize(), tag, r);
        ptag := Chain(tag);
        at := at + t.DSize();
        off, etag, count, tail, split, best, log := at, ptag, tempcount, temptail, tempsplit, tempbest, st.log;
        crc := INIT;
        continue;
      }
      crc := CrcOver(block, at + 4, at + t.DSize(), sum);
      st := Extend(st, at + t.DSize(), tag, crc, r);
      tempcount := CountAfter(tempcount, t);
      if Type1(t.kind) == TYPE_TAIL {
        if at + 12 > block.Length {
          erased := false;
          break;
        }
        SliceOf(c, at + 4, at + 8);
        SliceOf(c, at + 8, at + 12);
        tempsplit := t.kind & 1 != 0;
        temptail := Pair(FromLe(block[at + 4..at + 8]), FromLe(block[at + 8..at + 12]));
        st := st.(tail := temptail, split := tempsplit);
      }
      tempbest := MatchTag(tempbest, name, t, block[at + 4..at + t.DSize()]);
      ptag := tag;
      at := at + t.DSize();
    }
  }

  lemma NothingFound(name: Option<seq<Byte>>)
    ensures AllFit([]) && BestFor([], name) == BLANK
  {
  }

  /** What one tag does to tempbesttag: the splices, then the callback for a name. */
  method MatchTag(tempbest: Word, name: Option<seq<Byte>>, t: Tag, data: seq<Byte>) returns (best: Word)
    requires t.Fits()
    ensures best == BestNext(tempbest, name, Rec(t, data))
  {
    hide NameCmp, Moved, Unpack;
    best := tempbest;
    if name == None {
      return;
    }
    SpliceIsNoName(t.kind);
    if Type1(t.kind) == TYPE_SPLICE {
      if t == Tag(TYPE_DELETE, Unpack(best).id, 0) {
        best := Marked(best);
      } else if best != BLANK && t.id <= Unpack(best).id {
        best := Moved(best, t.kind);
      }
    }
    if Findable(t.kind) {
      var res := NameCmp(data, name.value);
      if res.Equal? {
        best := Pack(t);
      } else if t.kind == Unpack(best).kind && t.id == Unpack(best).id {
        best := BLANK;
      } else if res.Greater? && t.id <= Unpack(best).id {
        best := Marked(Pack(t));
      }
    }
  }

  lemma SpliceIsNoName(kind: bv11)
    ensures Type1(kind) == TYPE_SPLICE ==> !Findable(kind)
  {
  }

  lemma ScanUnfold(block: seq<Byte>, prog: nat, st: State)
    requires prog > 0
    ensures Scan(block, prog, st) ==
            var o := Step(block, prog, st);
            if o.Stop? then Result(st.best, o.erased) else Scan(block, prog, o.next)
  {
    hide Step;
  }

  lemma CountSnoc(log: seq<Rec>, r: Rec)
    ensures Count(log + [r]) == CountAfter(Count(log), r.tag) && Count([]) == 0
  {
    hide CountAfter;
    assert (log + [r])[..|log|] == log;
  }

  lemma CountIgnoresCrc(count: nat, t: Tag)
    requires Type1(t.kind) == TYPE_CRC
    ensures CountAfter(count, t) == count
  {
  }

  /** No count on the way through a log is negative or overflows a uint16_t. */
  ghost predicate CountsFit(log: seq<Rec>) {
    forall i | 0 <= i <= |log| :: 0 <= Replay(log[..i]).count < 0x1_0000
  }

  lemma CountStep(d: Dir, r: Rec)
    requires OnDisk(r) && d.count >= 0 && 0 <= Apply(d, r).count < 0x1_0000
    ensures CountAfter(d.count, r.tag) == Apply(d, r).count
  {
  }

  /** The scan counts entries as the replay does. */
  lemma {:induction false} CountIsReplay(log: seq<Rec>)
    requires AllOnDisk(log) && CountsFit(log)
    ensures Count(log) == Replay(log).count
  {
    hide CountAfter, Apply, OnDisk;
    assert log[..|log|] == log;
    if log != [] {
      var front := log[..|log| - 1];
      forall i | 0 <= i <= |front| ensures 0 <= Replay(front[..i]).count < 0x1_0000 {
        assert front[..i] == log[..i];
      }
      CountIsReplay(front);
      assert 0 <= Replay(log[..|log| - 1]).count;
      assert OnDisk(log[|log| - 1]);
      CountStep(Replay(front), log[|log| - 1]);
    }
  }

  /**
   * lfs_dir_fetchmatch up to the choice of the answer: the most recent block of a pair, or the other if that one holds
   * no complete commit.
   */
  method FetchDir(first: array<Byte>, second: array<Byte>, prog: nat, name: Option<seq<Byte>>)
    returns (ok: bool, r: bool, rev: Word, off: nat, etag: Word, count: nat, tail: Pair, split: bool, erased: bool,
             best: Word, ghost log: seq<Rec>)
    requires first.Length >= 4 && second.Length >= 4 && prog > 0
    ensures ok <==> FetchPair(first[..], second[..], prog).Some?
    ensures ok ==>
              var m := FetchPair(first[..], second[..], prog).value;
              && r == m.second && rev == m.rev && off == m.result.found.off && etag == m.result.found.etag
              && tail == m.result.found.tail && split == m.result.found.split && erased == m.result.erased
              && count == Count(m.result.found.log)
    ensures ok ==> log == FetchPair(first[..], second[..], prog).value.result.found.log
    ensures ok ==> AllFit(log) && best == BestFor(log, name)
  {
    hide FetchBlock, Newer, Count, BestFor;
    var rev0 := ReadRev(first);
    var rev1 := ReadRev(second);
    r := Newer(rev1, rev0);
    rev := if r then rev1 else rev0;
    off, etag, count, tail, split, erased, best, log := ScanBlock(if r then second else first, prog, rev, name);
    if off > 0 {
      return true, r, rev, off, etag, count, tail, split, erased, best, log;
    }
    r := !r;
    rev := if r then rev1 else rev0;
    off, etag, count, tail, split, erased, best, log := ScanBlock(if r then second else first, prog, rev, name);
    ok := off > 0;
  }

  method ReadRev(block: array<Byte>) returns (rev: Word)
    requires block.Length >= 4
    ensures rev == Rev(block[..]) && ToLe(rev) == block[..4]
  {
    assert block[..][0..4] == block[..4];
    BytesRoundTrip(block[..4]);
    rev := FromLe(block[..4]);
  }
}
