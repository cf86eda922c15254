/** Bytes and 32-bit words as littlefs stores them. */
module Words {

  datatype Option<+T> = None | Some(value: T)

  /** LFS_BLOCK_NULL. */
  const NULL: nat := 0xffff_ffff

  datatype Byte = Byte(bits: bv8)

  /** A uint32_t whose bits matter: a tag, a checksum, a revision or a block address. */
  datatype Word = Word(bits: bv32)

  function Xor(a: Word, b: Word): Word { Word(a.bits ^ b.bits) }

  lemma XorTwice(a: Word, b: Word)
    ensures Xor(Xor(a, b), b) == a
  {
  }

  lemma XorSymmetric(a: Word, b: Word)
    ensures Xor(a, b) == Xor(b, a)
  {
  }

  lemma XorAssociative(a: Word, b: Word, c: Word)
    ensures Xor(Xor(a, b), c) == Xor(a, Xor(b, c))
  {
  }

  lemma XorZero(a: Word)
    ensures Xor(a, Word(0)) == a
  {
  }

  lemma XorSwap(a: Word, b: Word, c: Word)
    ensures Xor(Xor(a, b), c) == Xor(Xor(a, c), b)
  {
  }

  // ---- Byte order ----

  /** lfs_frombe32 of the bytes of a word: most significant byte first, as tags are stored. */
  function FromBe(s: seq<Byte>): Word {
    if s == [] then Word(0)
    else Word((FromBe(s[..|s| - 1]).bits << 8) | (s[|s| - 1].bits as bv32))
  }

  /** lfs_fromle32 of the bytes of a word: least significant byte first, as the other words are stored. */
  function FromLe(s: seq<Byte>): Word {
    if s == [] then Word(0)
    else Word((FromLe(s[1..]).bits << 8) | (s[0].bits as bv32))
  }

  function ByteOf(w: Word, shift: bv8): Byte
    requires shift <= 24
  {
    Byte(((w.bits >> shift) & 0xff) as bv8)
  }

  /** lfs_tobe32 followed by a four-byte copy. */
  function ToBe(w: Word): (s: seq<Byte>)
    ensures |s| == 4
  {
    [ByteOf(w, 24), ByteOf(w, 16), ByteOf(w, 8), ByteOf(w, 0)]
  }

  /** lfs_tole32 followed by a four-byte copy. */
  function ToLe(w: Word): (s: seq<Byte>)
    ensures |s| == 4
  {
    [ByteOf(w, 0), ByteOf(w, 8), ByteOf(w, 16), ByteOf(w, 24)]
  }

  /** The big-endian word at an offset of a block. */
  function BeAt(s: seq<Byte>, off: nat): Word
    requires off + 4 <= |s|
  {
    FromBe(s[off..off + 4])
  }

  /** The little-endian word at an offset of a block. */
  function LeAt(s: seq<Byte>, off: nat): Word
    requires off + 4 <= |s|
  {
    FromLe(s[off..off + 4])
  }

  function Append(w: Word, b: Byte): Word { Word((w.bits << 8) | (b.bits as bv32)) }

  lemma AppendBytes(w: Word)
    ensures Append(Append(Append(Append(Word(0), ByteOf(w, 24)), ByteOf(w, 16)), ByteOf(w, 8)), ByteOf(w, 0)) == w
  {
  }

  lemma FromBeSnoc(s: seq<Byte>, b: Byte)
    ensures FromBe(s + [b]) == Append(FromBe(s), b)
  {
    assert (s + [b])[..|s|] == s;
  }

  lemma FromLeCons(b: Byte, s: seq<Byte>)
    ensures FromLe([b] + s) == Append(FromLe(s), b)
  {
    assert ([b] + s)[1..] == s;
  }

  lemma FromBeFour(b3: Byte, b2: Byte, b1: Byte, b0: Byte)
    ensures FromBe([b3, b2, b1, b0]) == Append(Append(Append(Append(Word(0), b3), b2), b1), b0)
  {
    hide Append;
    FromBeSnoc([], b3);
    FromBeSnoc([b3], b2);
    FromBeSnoc([b3, b2], b1);
    FromBeSnoc([b3, b2, b1], b0);
    assert [] + [b3] == [b3] && [b3] + [b2] == [b3, b2] && [b3, b2] + [b1] == [b3, b2, b1];
    assert [b3, b2, b1] + [b0] == [b3, b2, b1, b0];
  }

  lemma FromLeFour(b0: Byte, b1: Byte, b2: Byte, b3: Byte)
    ensures FromLe([b0, b1, b2, b3]) == Append(Append(Append(Append(Word(0), b3), b2), b1), b0)
  {
    FromLeCons(b3, []);
    FromLeCons(b2, [b3]);
    FromLeCons(b1, [b2, b3]);
    FromLeCons(b0, [b1, b2, b3]);
    assert [b3] + [] == [b3] && [b2] + [b3] == [b2, b3] && [b1] + [b2, b3] == [b1, b2, b3];
    assert [b0] + [b1, b2, b3] == [b0, b1, b2, b3];
  }

  /** Reading back a stored word gives the word, in both byte orders. */
  lemma WordRoundTrip(w: Word)
    ensures FromBe(ToBe(w)) == w && FromLe(ToLe(w)) == w
  {
    FromBeFour(ByteOf(w, 24), ByteOf(w, 16), ByteOf(w, 8), ByteOf(w, 0));
    FromLeFour(ByteOf(w, 0), ByteOf(w, 8), ByteOf(w, 16), ByteOf(w, 24));
    AppendBytes(w);
  }

  lemma BytesOfAppended(b3: Byte, b2: Byte, b1: Byte, b0: Byte)
    ensures var w := Append(Append(Append(Append(Word(0), b3), b2), b1), b0);
            ByteOf(w, 24) == b3 && ByteOf(w, 16) == b2 && ByteOf(w, 8) == b1 && ByteOf(w, 0) == b0
  {
  }

  /** Storing a word that was read gives the bytes it was read from. */
  lemma BytesRoundTrip(s: seq<Byte>)
    requires |s| == 4
    ensures ToLe(FromLe(s)) == s && ToBe(FromBe(s)) == s
  {
    hide Append, ByteOf, FromLe, FromBe;
    assert s == [s[0], s[1], s[2], s[3]];
    FromLeFour(s[0], s[1], s[2], s[3]);
    FromBeFour(s[0], s[1], s[2], s[3]);
    BytesOfAppended(s[3], s[2], s[1], s[0]);
    BytesOfAppended(s[0], s[1], s[2], s[3]);
  }

  // ---- Words as numbers ----

  const TWO32: int := 0x1_0000_0000

  /** The value of a uint32_t. */
  function Unsigned(w: Word): (n: nat)
    ensures n < TWO32
  {
    w.bits as nat
  }

  /** The uint32_t of a value. */
  function FromNat(n: nat): (w: Word)
    requires n < TWO32
    ensures Unsigned(w) == n
  {
    assert n == n % 0x1_0000_0000;
    Word(n as bv32)
  }
}
