/** The bytes of a file kept in a skip-list, and what extending and programming do to them. */
module FileData {
  import opened Words
  import opened Bits
  import opened Commit
  import opened CtzIndexing
  import opened CtzList

  /** The byte at an offset of a file. */
  function ByteAt(dev: seq<seq<Byte>>, size: nat, blocks: seq<nat>, p: nat): Byte
    requires size > 8
  {
    var i, o := IndexOf(size, p), OffsetOf(size, p);
    if 0 <= i < |blocks| && blocks[i] < |dev| && 0 <= o < |dev[blocks[i]]| then dev[blocks[i]][o] else Byte(0)
  }

  /** The first n bytes of a file. */
  function Data(dev: seq<seq<Byte>>, size: nat, blocks: seq<nat>, n: nat): (d: seq<Byte>)
    requires size > 8
    ensures |d| == n
  {
    seq(n, p requires 0 <= p < n => ByteAt(dev, size, blocks, p))
  }


  /** The bytes of a file are where the formula says. */
  lemma ByteIn(dev: seq<seq<Byte>>, size: nat, blocks: seq<nat>, n: nat, p: nat)
    requires IsFile(dev, size, blocks, n) && p < n
    ensures var i, o := IndexOf(size, p), OffsetOf(size, p);
            && 0 <= i < |blocks| && blocks[i] < |dev| && 0 <= o < size == |dev[blocks[i]]|
            && ByteAt(dev, size, blocks, p) == dev[blocks[i]][o]
  {
    hide IndexOf, OffsetOf, Linked, DataBefore;
    IndexMonotonic(size, p, n - 1);
    IndexIsRight(size, p);
  }

  /** Changes to other blocks do not change a file. */
  lemma DataFrame(a: seq<seq<Byte>>, b: seq<seq<Byte>>, size: nat, blocks: seq<nat>, n: nat)
    requires IsFile(a, size, blocks, n) && |a| == |b|
    requires forall i | 0 <= i < |blocks| :: blocks[i] < |a| && a[blocks[i]] == b[blocks[i]]
    ensures IsFile(b, size, blocks, n) && Data(a, size, blocks, n) == Data(b, size, blocks, n)
  {
    hide IndexOf, OffsetOf, Linked;
    forall p | 0 <= p < n ensures ByteAt(a, size, blocks, p) == ByteAt(b, size, blocks, p) {
      ByteIn(a, size, blocks, n, p);
    }
  }

  /** A shorter file of the same blocks. */
  lemma FileTake(dev: seq<seq<Byte>>, size: nat, blocks: seq<nat>, n: nat, m: nat)
    requires IsFile(dev, size, blocks, n) && 0 < m <= n
    ensures var k := IndexOf(size, m - 1) + 1;
            0 < k <= |blocks| && IsFile(dev, size, blocks[..k], m)
              && Data(dev, size, blocks[..k], m) == Data(dev, size, blocks, n)[..m]
  {
    hide IndexOf, OffsetOf, Linked, List;
    var k := IndexOf(size, m - 1) + 1;
    IndexMonotonic(size, m - 1, n - 1);
    ListTake(dev, size, blocks, k);
    forall p | 0 <= p < m ensures ByteAt(dev, size, blocks[..k], p) == ByteAt(dev, size, blocks, p) {
      IndexMonotonic(size, p, m - 1);
    }
  }

  /** Offsets within one block follow each other. */
  lemma SameBlock(size: nat, p: nat, k: nat)
    requires InRange(size, p + k) && OffsetOf(size, p) + k < size
    ensures IndexOf(size, p) >= 0 && IndexOf(size, p + k) == IndexOf(size, p)
    ensures OffsetOf(size, p + k) == OffsetOf(size, p) + k
  {
    hide IndexOf, OffsetOf, DataBefore;
    IndexIsRight(size, p);
    IndexIsRight(size, p + k);
    PositionIsUnique(size, p + k, IndexOf(size, p), OffsetOf(size, p) + k, IndexOf(size, p + k), OffsetOf(size, p + k));
  }

  /** After the last byte of a block comes the first one behind the pointers of the next. */
  lemma NextBlock(size: nat, p: nat)
    requires InRange(size, p + 1) && OffsetOf(size, p) + 1 == size
    ensures IndexOf(size, p) >= 0 && IndexOf(size, p + 1) == IndexOf(size, p) + 1
    ensures OffsetOf(size, p + 1) == Header(IndexOf(size, p) + 1)
  {
    hide IndexOf, OffsetOf, Ctz;
    IndexIsRight(size, p);
    IndexIsRight(size, p + 1);
    var i := IndexOf(size, p);
    PositionBounds(size, p, i, OffsetOf(size, p));
    PowersOfTwo();
    NextIndexFits(size, p, i);
    HeaderFits(i + 1, size);
    assert DataBefore(size, i + 1) == DataBefore(size, i) + size - Header(i);
    PositionIsUnique(size, p + 1, i + 1, Header(i + 1), IndexOf(size, p + 1), OffsetOf(size, p + 1));
  }

  lemma NextIndexFits(size: nat, p: nat, i: nat)
    requires InRange(size, p) && IsPosition(size, p, i, OffsetOf(size, p))
    ensures i + 1 < Pow2(26)
  {
    hide OffsetOf;
    DataBeforeClosed(size, i);
    assert i * (size - 8) == (size - 8) * i;
    FewBlocks(size - 8, p, i);
  }

  lemma FirstBlock(size: nat)
    requires size >= 112
    ensures IndexOf(size, 0) == 0 && OffsetOf(size, 0) == 0
  {
    hide IndexOf, OffsetOf;
    IndexIsRight(size, 0);
    PositionIsUnique(size, 0, IndexOf(size, 0), OffsetOf(size, 0), 0, 0);
  }

  /** A run of bytes inside one block. */
  lemma DataRun(dev: seq<seq<Byte>>, size: nat, blocks: seq<nat>, n: nat, p: nat, k: nat)
    requires IsFile(dev, size, blocks, n) && k > 0 && p + k <= n && OffsetOf(size, p) + k <= size
    ensures var i, o := IndexOf(size, p), OffsetOf(size, p);
            && 0 <= i < |blocks| && blocks[i] < |dev| && 0 <= o && o + k <= |dev[blocks[i]]|
            && Data(dev, size, blocks, n)[p..p + k] == dev[blocks[i]][o..o + k]
  {
    hide IndexOf, OffsetOf, Linked;
    ByteIn(dev, size, blocks, n, p);
    var i, o := IndexOf(size, p), OffsetOf(size, p);
    var x, y := Data(dev, size, blocks, n)[p..p + k], dev[blocks[i]][o..o + k];
    forall j | 0 <= j < k ensures x[j] == y[j] {
      SameBlock(size, p, j);
      ByteIn(dev, size, blocks, n, p + j);
    }
  }

  // ---- Extending ----

  /** Where writing goes on after n bytes: the place behind the last one. */
  function EndOff(size: nat, n: nat): int
    requires size > 8
  {
    if n == 0 then 0 else OffsetOf(size, n - 1) + 1
  }

  /**
   * After an extension of a file of n bytes: the block list and the place for byte n, which is in the last block; the n
   * bytes are as before.
   */
  lemma ExtendedData(a: seq<seq<Byte>>, b: seq<seq<Byte>>, size: nat, blocks: seq<nat>, n: nat, nblock: nat)
    requires IsFile(a, size, blocks, n) && n < FILE_MAX && nblock < |a| == |b| && nblock !in blocks
    requires b == a[nblock := b[nblock]] && |b[nblock]| == size && List(b, size, ExtendedList(size, blocks, n, nblock))
    requires n > 0 && !LastIsFull(size, n) ==>
               0 <= ExtendedOff(size, blocks, n) <= size && blocks[|blocks| - 1] < |a|
                 && |a[blocks[|blocks| - 1]]| == size
               && b[nblock][..ExtendedOff(size, blocks, n)] == a[blocks[|blocks| - 1]][..ExtendedOff(size, blocks, n)]
    ensures var l := ExtendedList(size, blocks, n, nblock);
            && IndexOf(size, n) == |l| - 1 && OffsetOf(size, n) == ExtendedOff(size, blocks, n) < size
            && l[|l| - 1] == nblock && Data(b, size, l, n) == Data(a, size, blocks, n)
  {
    hide IndexOf, OffsetOf, Linked, List;
    var l := ExtendedList(size, blocks, n, nblock);
    if n == 0 {
      FirstBlock(size);
      assert Data(b, size, l, 0) == Data(a, size, blocks, 0);
    } else {
      ByteIn(a, size, blocks, n, n - 1);
      ListHead(a, size, blocks);
      if LastIsFull(size, n) {
        NextBlock(size, n - 1);
        IndexIsRight(size, n);
      } else {
        SameBlock(size, n - 1, 1);
      }
      forall p | 0 <= p < n ensures ByteAt(b, size, l, p) == ByteAt(a, size, blocks, p) {
        ExtendedByte(a, b, size, blocks, n, nblock, p);
      }
    }
  }

  lemma ExtendedByte(a: seq<seq<Byte>>, b: seq<seq<Byte>>, size: nat, blocks: seq<nat>, n: nat, nblock: nat, p: nat)
    requires IsFile(a, size, blocks, n) && 0 < n < FILE_MAX && p < n && nblock < |a| == |b| && nblock !in blocks
    requires b == a[nblock := b[nblock]] && |b[nblock]| == size
    requires blocks[|blocks| - 1] < |a| && |a[blocks[|blocks| - 1]]| == size
    requires !LastIsFull(size, n) ==>
               0 <= ExtendedOff(size, blocks, n) <= size
               && b[nblock][..ExtendedOff(size, blocks, n)] == a[blocks[|blocks| - 1]][..ExtendedOff(size, blocks, n)]
    ensures ByteAt(b, size, ExtendedList(size, blocks, n, nblock), p) == ByteAt(a, size, blocks, p)
  {
    hide IndexOf, OffsetOf, Linked, List;
    var i, o, m := IndexOf(size, p), OffsetOf(size, p), |blocks| - 1;
    ByteIn(a, size, blocks, n, p);
    IndexMonotonic(size, p, n - 1);
    if LastIsFull(size, n) || i < m {
      assert blocks[i] in blocks;
      assert ExtendedList(size, blocks, n, nblock)[i] == blocks[i];
    } else {
      OffsetMonotonic(size, p, n - 1);
      assert b[nblock][..ExtendedOff(size, blocks, n)][o] == a[blocks[m]][..ExtendedOff(size, blocks, n)][o];
    }
  }

  /** In one block, earlier offsets have earlier places. */
  lemma OffsetMonotonic(size: nat, p: nat, q: nat)
    requires p <= q && InRange(size, q) && IndexOf(size, p) == IndexOf(size, q)
    ensures OffsetOf(size, p) <= OffsetOf(size, q)
  {
    hide IndexOf, OffsetOf, DataBefore;
    IndexIsRight(size, p);
    IndexIsRight(size, q);
  }

  // ---- Programming ----

  /** Bytes programmed behind the first n of a file, in its last block. */
  lemma ProgrammedData(a: seq<seq<Byte>>, b: seq<seq<Byte>>, size: nat, blocks: seq<nat>, n: nat, chunk: seq<Byte>)
    requires List(a, size, blocks) && 112 <= size < LIMIT && blocks != [] && n + |chunk| <= FILE_MAX && chunk != []
    requires IndexOf(size, n) == |blocks| - 1 && OffsetOf(size, n) >= 0 && OffsetOf(size, n) + |chunk| <= size
    requires forall i | 0 <= i < |blocks| - 1 :: blocks[i] != blocks[|blocks| - 1]
    requires blocks[|blocks| - 1] < |a| == |b| && |a[blocks[|blocks| - 1]]| == size
    requires b == a[blocks[|blocks| - 1] := Put(a[blocks[|blocks| - 1]], OffsetOf(size, n), chunk)]
    ensures IsFile(b, size, blocks, n + |chunk|)
    ensures Data(b, size, blocks, n + |chunk|) == Data(a, size, blocks, n) + chunk
    ensures EndOff(size, n + |chunk|) == OffsetOf(size, n) + |chunk|
  {
    hide IndexOf, OffsetOf, Linked, Put, List;
    var m, o := |blocks| - 1, OffsetOf(size, n);
    IndexIsRight(size, n);
    SameBlock(size, n, |chunk| - 1);
    ProgrammedList(a, b, size, blocks, o, chunk);
    forall p | 0 <= p < n + |chunk|
      ensures ByteAt(b, size, blocks, p) == if p < n then ByteAt(a, size, blocks, p) else chunk[p - n]
    {
      ProgrammedByte(a, b, size, blocks, n, chunk, p);
    }
  }

  lemma ProgrammedByte(a: seq<seq<Byte>>, b: seq<seq<Byte>>, size: nat, blocks: seq<nat>, n: nat, chunk: seq<Byte>,
                       p: nat)
    requires size >= 112 && blocks != [] && p < n + |chunk| <= FILE_MAX && List(a, size, blocks)
    requires IndexOf(size, n) == |blocks| - 1 && OffsetOf(size, n) >= 0 && OffsetOf(size, n) + |chunk| <= size
    requires forall i | 0 <= i < |blocks| - 1 :: blocks[i] != blocks[|blocks| - 1]
    requires blocks[|blocks| - 1] < |a| == |b| && |a[blocks[|blocks| - 1]]| == size
    requires b == a[blocks[|blocks| - 1] := Put(a[blocks[|blocks| - 1]], OffsetOf(size, n), chunk)]
    ensures ByteAt(b, size, blocks, p) == if p < n then ByteAt(a, size, blocks, p) else chunk[p - n]
  {
    hide IndexOf, OffsetOf, Linked, Put, List;
    var m, o, base := |blocks| - 1, OffsetOf(size, n), a[blocks[|blocks| - 1]];
    ListHead(a, size, blocks);
    if p < n {
      IndexMonotonic(size, p, n);
      if IndexOf(size, p) == m {
        OffsetMonotonic(size, p, n);
        EarlierPlace(size, p, n);
        PutBefore(base, o, chunk, OffsetOf(size, p));
      }
    } else {
      SameBlock(size, n, p - n);
      PutInside(base, o, chunk, p - n);
    }
  }

  lemma EarlierPlace(size: nat, p: nat, n: nat)
    requires p < n && InRange(size, n) && IndexOf(size, p) == IndexOf(size, n)
    ensures 0 <= OffsetOf(size, p) < OffsetOf(size, n)
  {
    hide IndexOf, OffsetOf, DataBefore;
    IndexIsRight(size, p);
    IndexIsRight(size, n);
  }

  lemma PutBefore(base: seq<Byte>, o: nat, chunk: seq<Byte>, q: nat)
    requires q < o && o + |chunk| <= |base|
    ensures Put(base, o, chunk)[q] == base[q]
  {
    assert Put(base, o, chunk)[q] == Put(base, o, chunk)[..o][q] == base[..o][q];
  }

  lemma PutInside(base: seq<Byte>, o: nat, chunk: seq<Byte>, k: nat)
    requires k < |chunk| && o + |chunk| <= |base|
    ensures Put(base, o, chunk)[o + k] == chunk[k]
  {
    assert Put(base, o, chunk)[o + k] == Put(base, o, chunk)[o..o + |chunk|][k];
  }

  /** Programming behind the pointers of the last block keeps a list a list. */
  lemma ProgrammedList(a: seq<seq<Byte>>, b: seq<seq<Byte>>, size: nat, blocks: seq<nat>, o: nat, chunk: seq<Byte>)
    requires List(a, size, blocks) && blocks != [] && Header(|blocks| - 1) <= o && o + |chunk| <= size
    requires forall i | 0 <= i < |blocks| - 1 :: blocks[i] != blocks[|blocks| - 1]
    requires blocks[|blocks| - 1] < |a| == |b| && |a[blocks[|blocks| - 1]]| == size
    requires b == a[blocks[|blocks| - 1] := Put(a[blocks[|blocks| - 1]], o, chunk)]
    ensures List(b, size, blocks)
  {
    hide Linked, Put, Header;
    var m := |blocks| - 1;
    forall n | 0 <= n < |blocks|
      ensures blocks[n] < |b| && |b[blocks[n]]| == size && Linked(b[blocks[n]], blocks, n)
    {
      if n == m {
        LinkedCopy(a[blocks[m]], b[blocks[m]], blocks, m, o);
      }
    }
  }
}
