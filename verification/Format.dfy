/**
 * The on-disk format in numbers: byte orders, the fields of a tag, the kinds of tags, the checksum, and the bytes with
 * which a formatted disk begins.
 */
module Format {
  import opened Words
  import opened Tags
  import opened Log
  import opened Checksum
  import opened Fetch
  import opened Commit
  import opened GlobalState
  import opened Contents
  import opened Traverse
  import opened Names
  import opened Scanner
  import opened Bits
  import opened CtzIndexing
  import opened CtzList

  // ---- Words ----

  /** Tags are stored most significant byte first, all other words least significant byte first. */
  lemma ByteOrders(a: bv8, b: bv8, c: bv8, d: bv8)
    ensures var w := Word(((a as bv32) << 24) | ((b as bv32) << 16) | ((c as bv32) << 8) | (d as bv32));
            && ToBe(w) == [Byte(a), Byte(b), Byte(c), Byte(d)] && FromBe([Byte(a), Byte(b), Byte(c), Byte(d)]) == w
            && ToLe(w) == [Byte(d), Byte(c), Byte(b), Byte(a)] && FromLe([Byte(d), Byte(c), Byte(b), Byte(a)]) == w
  {
    hide FromBe, FromLe, ByteOf;
    var w := Word(((a as bv32) << 24) | ((b as bv32) << 16) | ((c as bv32) << 8) | (d as bv32));
    BytesOf(a, b, c, d);
    WordRoundTrip(w);
  }

  lemma BytesOf(a: bv8, b: bv8, c: bv8, d: bv8)
    ensures var w := Word(((a as bv32) << 24) | ((b as bv32) << 16) | ((c as bv32) << 8) | (d as bv32));
            ByteOf(w, 24) == Byte(a) && ByteOf(w, 16) == Byte(b) && ByteOf(w, 8) == Byte(c) && ByteOf(w, 0) == Byte(d)
  {
  }

  // ---- Tags ----

  /** Type, id and size of a tag make up its word in this order, under a valid bit that is 0 if the tag is valid. */
  lemma TagWord(kind: bv11, id: bv10, size: bv10)
    ensures var w := Pack(Tag(kind, id as nat, size as nat));
            && w.bits == (kind as bv32) * 0x10_0000 + (id as bv32) * 0x400 + (size as bv32)
            && w.bits < 0x8000_0000
    ensures forall w: Word :: IsValid(w) <==> w.bits < 0x8000_0000
  {
    WidenRoundTrip(id);
    WidenRoundTrip(size);
    FieldsAdd(kind, id, size);
  }

  lemma FieldsAdd(kind: bv11, id: bv10, size: bv10)
    ensures MkTag(kind, id, size).bits == (kind as bv32) * 0x10_0000 + (id as bv32) * 0x400 + (size as bv32)
    ensures MkTag(kind, id, size).bits < 0x8000_0000
  {
  }

  /** Which tags are what: splices, names, structs, user attributes, tails, the global state and the end of a commit. */
  lemma TagKinds()
    ensures Splice(0x401) == 1 && Splice(0x4ff) == -1 && Splice(0x47f) == 0x7f && Splice(0x480) == -0x80
    ensures CountAfter(0, Tag(0x4ff, 0, 0)) == 0xffff && CountAfter(0xffff, Tag(0x401, 0, 0)) == 0
    ensures forall d: Dir, id: nat :: Apply(d, Rec(Tag(0x401, id, 0), [])).count == d.count + 1
    ensures forall d: Dir, id: nat :: Apply(d, Rec(Tag(0x4ff, id, 0), [])).count == d.count - 1
    ensures Key(0x001) == Key(0x002) == Key(0x0ff) && IsAttr(0x001) && IsAttr(0x002) && IsAttr(0x0ff)
    ensures Key(0x200) == Key(0x201) == Key(0x202) != Key(0x001) && IsAttr(0x200) && IsAttr(0x201) && IsAttr(0x202)
    ensures Key(0x331) != Key(0x332) && Key(0x331) != Key(0x201) && IsAttr(0x300) && IsAttr(0x3ff)
    ensures Findable(0x001) && Findable(0x002) && !Findable(0x0ff) && !Findable(0x401) && !Findable(0x201)
    ensures Type1(0x500) == Type1(0x501) == TYPE_CRC && !Resets(0x500) && Resets(0x501)
    ensures forall g :: StateRec(g).tag == Tag(0x7ff, 0x3ff, 12)
    ensures forall p :: TailRec(Tail(p, false)).tag == Tag(0x600, 0x3ff, 8)
    ensures forall p :: TailRec(Tail(p, true)).tag == Tag(0x601, 0x3ff, 8)
    ensures forall kind: bv8, id: nat, data :: UserAttrRec(id, UserAttr(kind, data)).tag.kind == 0x300 + (kind as bv11)
  {
    hide StateBytes, Pad;
  }

  /** A splice moves ids by its chunk, read as a signed byte. */
  lemma SplicedIds()
    ensures Moved(Word(0), 0x401) == Word(0x400) && Moved(Word(0x400), 0x4ff) == Word(0)
    ensures Moved(Word(0), 0x47f) == Word(0x1_fc00) && Moved(Word(0x2_0000), 0x480) == Word(0)
  {
  }

  /** A removed attribute is one of size 0x3ff; it takes no room. */
  lemma RemovedAttribute(kind: bv11, id: nat, size: nat)
    ensures Value(kind, size, []).Deleted() <==> size == 0x3ff
    ensures Tag(kind, id, size).DSize() == 4 + (if size == 0x3ff then 0 else size)
  {
  }

  /** A tail is stored as two addresses, the global state as a tag and two addresses. */
  lemma StoredWords(a: Word, b: Word, c: Word)
    ensures TailRec(Tail(Pair(a, b), false)).data == ToLe(a) + ToLe(b)
    ensures TailOf(ToLe(a) + ToLe(b)) == Pair(a, b)
    ensures StateRec(GState(a, b, c)).data == ToLe(a) + ToLe(b) + ToLe(c)
  {
    hide ToLe, FromLe;
    WordRoundTrip(a);
    WordRoundTrip(b);
    assert (ToLe(a) + ToLe(b))[..4] == ToLe(a) && (ToLe(a) + ToLe(b))[4..] == ToLe(b);
  }

  /** A compaction writes a tail exactly if it has two addresses; 0xffff_ffff is no address. */
  lemma TailIsWritten(log: seq<Rec>, t: Tail, delta: GState)
    ensures var both := t.pair.first.bits != 0xffff_ffff && t.pair.second.bits != 0xffff_ffff;
            && (both ==> TailOk(t.pair, t.split))
            && (TailRec(t) in CompactEnd(log, t, delta) <==> both)
            && (!both ==> forall r | r in CompactEnd(log, t, delta) :: Type1(r.tag.kind) != TYPE_TAIL)
  {
    hide Stored, XorG, StateBytes;
  }

  // ---- The end of a commit ----

  /** The CRC tag says whether the first bit behind it reads as 0. */
  lemma ClosingTag(block: seq<Byte>, off: nat, end: nat)
    requires off + 8 <= end
    ensures var t, next := FooterTag(block, off, end), FooterEnd(off, end);
            && t.id == 0x3ff && t.size == next - off - 4
            && t.kind == if next + 4 <= |block| && BeAt(block, next).bits < 0x8000_0000 then 0x501 else 0x500
  {
    hide FromBe;
    if FooterEnd(off, end) + 4 <= |block| {
      var w := BeAt(block, FooterEnd(off, end));
      assert IsValid(w) <==> w.bits < 0x8000_0000;
    }
  }

  /** A CRC tag reaches as far as it may: its size is at most 0x3fe, and it leaves nothing or room for another one. */
  lemma ClosingTagReaches(off: nat, end: nat, next: nat)
    requires off + 8 <= next <= end && next - (off + 4) <= 0x3fe && (next == end || end - next >= 8)
    ensures next <= FooterEnd(off, end)
  {
  }

  /**
   * A commit takes its attributes, 8 bytes for a tag and a checksum, and no more than it needs to fill up a program
   * unit.
   */
  lemma CommitTakes(off: nat, prog: nat)
    requires prog > 0
    ensures off + 8 <= CommitEnd(off, prog) < off + 8 + prog && CommitEnd(off, prog) % prog == 0
  {
  }

  // ---- The checksum ----

  lemma OneByte(crc: bv32, b: bv8, after: bv32)
    requires var s := Word(crc ^ (b as bv32));
             Shift(Shift(Shift(Shift(Shift(Shift(Shift(Shift(s)))))))) == Word(after)
    ensures CrcByte(Word(crc), Byte(b)) == Word(after)
  {
    hide Shift, Shifts;
    var s := Word(crc ^ (b as bv32));
    assert Xor(Word(crc), Widen(Byte(b))) == s;
    EightShifts(s);
  }

  lemma EightShifts(s: Word)
    ensures Shifts(s, 8) == Shift(Shift(Shift(Shift(Shift(Shift(Shift(Shift(s))))))))
  {
    hide Shift;
    ShiftsAdd(s, 4, 4);
    FourShifts(s);
    FourShifts(Shifts(s, 4));
  }

  /** The usual check value: the checksum of "123456789". */
  lemma CheckValue()
    ensures Crc(INIT, [Byte(0x31), Byte(0x32), Byte(0x33), Byte(0x34), Byte(0x35), Byte(0x36), Byte(0x37), Byte(0x38),
                       Byte(0x39)]) == Word(0x340b_c6d9)
  {
    hide CrcByte;
    OneByte(0xffff_ffff, 0x31, 0x7c23_1048);
    OneByte(0x7c23_1048, 0x32, 0xb0ac_bb32);
    OneByte(0xb0ac_bb32, 0x33, 0x77b7_9c2d);
    OneByte(0x77b7_9c2d, 0x34, 0x641c_1f5c);
    OneByte(0x641c_1f5c, 0x35, 0x340a_c5e3);
    OneByte(0x340a_c5e3, 0x36, 0xf68d_2c9e);
    OneByte(0xf68d_2c9e, 0x37, 0xaffc_9660);
    OneByte(0xaffc_9660, 0x38, 0x651f_2550);
    OneByte(0x651f_2550, 0x39, 0x340b_c6d9);
    var s := [Byte(0x31), Byte(0x32), Byte(0x33), Byte(0x34), Byte(0x35), Byte(0x36), Byte(0x37), Byte(0x38),
      Byte(0x39)];
    CrcSnoc(INIT, [], s[0]);
    CrcSnoc(INIT, s[..1], s[1]);
    CrcSnoc(INIT, s[..2], s[2]);
    CrcSnoc(INIT, s[..3], s[3]);
    CrcSnoc(INIT, s[..4], s[4]);
    CrcSnoc(INIT, s[..5], s[5]);
    CrcSnoc(INIT, s[..6], s[6]);
    CrcSnoc(INIT, s[..7], s[7]);
    CrcSnoc(INIT, s[..8], s[8]);
    assert [] + [s[0]] == s[..1] && s[..1] + [s[1]] == s[..2] && s[..2] + [s[2]] == s[..3] && s[..3] + [s[3]] == s[..4];
    assert s[..4] + [s[4]] == s[..5] && s[..5] + [s[5]] == s[..6] && s[..6] + [s[6]] == s[..7]
      && s[..7] + [s[7]] == s[..8];
    assert s[..8] + [s[8]] == s;
  }

  // ---- Lists of blocks ----

  /** Pointer k of block n of a file is the k-th word of the block, and leads to block n - 2^k. */
  lemma ListPointers(block: seq<Byte>, blocks: seq<nat>, n: nat, k: nat)
    requires 0 < n <= |blocks| && Linked(block, blocks, n) && k <= Ctz(n)
    ensures 4 * k + 4 <= 4 * (Ctz(n) + 1) <= |block|
    ensures Pow2(k) <= n && Unsigned(FromLe(block[4 * k..4 * k + 4])) == blocks[n - Pow2(k)]
    ensures Unsigned(FromLe(block[..4])) == blocks[n - 1]
  {
    hide FromLe, Unsigned;
    SkipBack(n, k);
    SkipBack(n, 0);
    assert Pow2(0) == 1 && block[..4] == block[0..4];
    assert PointerAt(block, 0) == blocks[Skip(n, 0)] && PointerAt(block, k) == blocks[Skip(n, k)];
  }

  // ---- A formatted disk ----

  /** The name of the superblock entry and its struct begin a compacted root directory behind its revision. */
  lemma FormattedRoot(superblock: seq<Byte>)
    requires |superblock| == 24
    ensures var name := [Byte(0x6c), Byte(0x69), Byte(0x74), Byte(0x74), Byte(0x6c), Byte(0x65), Byte(0x66),
            Byte(0x73)];
            var recs := [Rec(Tag(0x0ff, 0, 8), name), Rec(Tag(0x201, 0, 24), superblock)];
            && AllCommittable(recs)
            && Encode(recs, BLANK) ==
               [Byte(0xf0), Byte(0x0f), Byte(0xff), Byte(0xf7)] + name
                 + [Byte(0x2f), Byte(0xe0), Byte(0x00), Byte(0x10)] + superblock
  {
    hide ToBe, MkTag;
    var name := [Byte(0x6c), Byte(0x69), Byte(0x74), Byte(0x74), Byte(0x6c), Byte(0x65), Byte(0x66), Byte(0x73)];
    var recs := [Rec(Tag(0x0ff, 0, 8), name), Rec(Tag(0x201, 0, 24), superblock)];
    TagWord(0x0ff, 0, 8);
    TagWord(0x201, 0, 24);
    ByteOrders(0xf0, 0x0f, 0xff, 0xf7);
    ByteOrders(0x2f, 0xe0, 0x00, 0x10);
    EncodeTwo(recs[0], recs[1]);
  }

  lemma EncodeTwo(a: Rec, b: Rec)
    requires Committable(a) && Committable(b)
    ensures Encode([a, b], BLANK) == EncodeRec(a, BLANK) + EncodeRec(b, Pack(a.tag))
  {
    hide EncodeRec, Pack;
    assert [a, b][1..] == [b] && [b][1..] == [];
    assert Encode([b], Pack(a.tag)) == EncodeRec(b, Pack(a.tag)) + Encode([], Pack(b.tag));
  }
}
