/** The 32-bit entry tags of a metadata log: an 11-bit type, a 10-bit id and a 10-bit size. */
module Tags {
  import opened Words

  // lfs_type values
  const TYPE_NAME: bv11 := 0x000
  const TYPE_FROM: bv11 := 0x100
  const TYPE_STRUCT: bv11 := 0x200
  const TYPE_USERATTR: bv11 := 0x300
  const TYPE_SPLICE: bv11 := 0x400
  const TYPE_CRC: bv11 := 0x500
  const TYPE_TAIL: bv11 := 0x600
  const TYPE_GLOBALS: bv11 := 0x700
  const TYPE_CREATE: bv11 := 0x401
  const TYPE_DELETE: bv11 := 0x4ff
  const TYPE_MOVESTATE: bv11 := 0x7ff
  const FROM_NOOP: bv11 := 0x000
  const FROM_MOVE: bv11 := 0x101
  const FROM_USERATTRS: bv11 := 0x102

  const NO_ID: nat := 0x3ff
  const DELETED_SIZE: nat := 0x3ff

  datatype Tag = Tag(kind: bv11, id: nat, size: nat) {
    /** The fields fit their bit widths. */
    predicate Fits() { id < 1024 && size < 1024 }

    /** lfs_tag_isdelete. */
    predicate IsDelete() { size == DELETED_SIZE }

    /** lfs_tag_dsize less the tag itself: a deleted attribute carries no data. */
    function DataSize(): nat { if IsDelete() then 0 else size }

    /** lfs_tag_dsize. */
    function DSize(): nat { 4 + DataSize() }
  }

  /** lfs_tag_type1: the abstract type. */
  function Type1(kind: bv11): bv11 { kind & 0x700 }

  /** lfs_tag_splice: the chunk as a signed byte. */
  function Splice(kind: bv11): int {
    var chunk := (kind & 0xff) as int;
    if chunk < 0x80 then chunk else chunk - 0x100
  }

  // ---- Tags as words ----

  /** The tag that precedes the first one: every bit set, so also "deleted". */
  const BLANK: Word := Word(0xffff_ffff)

  /** lfs_tag_isvalid. */
  predicate IsValid(w: Word) { w.bits & 0x8000_0000 == 0 }

  /** The word with its valid bit cleared. */
  function Masked(w: Word): Word { Word(w.bits & 0x7fff_ffff) }

  /** The word with its valid bit set. */
  function Marked(w: Word): Word { Word(w.bits | 0x8000_0000) }

  lemma MaskedMarked(w: Word)
    ensures Masked(Marked(w)) == Masked(w)
  {
  }

  /** LFS_MKTAG on fields that are already bit vectors. */
  function MkTag(kind: bv11, id: bv10, size: bv10): Word {
    Word(((kind as bv32) << 20) | ((id as bv32) << 10) | (size as bv32))
  }

  function KindBits(w: Word): bv11 { ((w.bits >> 20) & 0x7ff) as bv11 }
  function IdBits(w: Word): bv10 { ((w.bits >> 10) & 0x3ff) as bv10 }
  function SizeBits(w: Word): bv10 { (w.bits & 0x3ff) as bv10 }

  function Pack(t: Tag): Word
    requires t.Fits()
  {
    MkTag(t.kind, t.id as bv10, t.size as bv10)
  }

  function Unpack(w: Word): (t: Tag)
    ensures t.Fits()
  {
    Tag(KindBits(w), IdBits(w) as nat, SizeBits(w) as nat)
  }

  lemma FieldsOfMkTag(kind: bv11, id: bv10, size: bv10)
    ensures KindBits(MkTag(kind, id, size)) == kind && IdBits(MkTag(kind, id, size)) == id
    ensures SizeBits(MkTag(kind, id, size)) == size && IsValid(MkTag(kind, id, size))
  {
  }

  lemma NarrowRoundTrip(n: nat)
    requires n < 1024
    ensures (n as bv10) as nat == n
  {
    assert n == n % 1024;
  }

  /** Packing loses nothing and always yields a valid tag word. */
  lemma UnpackPack(t: Tag)
    requires t.Fits()
    ensures Unpack(Pack(t)) == t && IsValid(Pack(t))
  {
    NarrowRoundTrip(t.id);
    NarrowRoundTrip(t.size);
    FieldsOfMkTag(t.kind, t.id as bv10, t.size as bv10);
  }

  lemma MkTagOfFields(w: Word)
    ensures MkTag(KindBits(w), IdBits(w), SizeBits(w)) == Masked(w)
  {
  }

  lemma WidenRoundTrip(b: bv10)
    ensures (b as nat) < 1024 && (b as nat) as bv10 == b
  {
  }

  lemma ValidIsMasked(w: Word)
    ensures IsValid(w) ==> Masked(w) == w
    ensures IsValid(Masked(w))
  {
  }

  /** Every word is the packing of its fields, up to the valid bit. */
  lemma PackUnpack(w: Word)
    ensures Pack(Unpack(w)) == Masked(w)
  {
    WidenRoundTrip(IdBits(w));
    WidenRoundTrip(SizeBits(w));
    MkTagOfFields(w);
  }

  lemma KindOfMasked(w: Word)
    ensures KindBits(w) == KindBits(Masked(w))
  {
  }

  lemma IdOfMasked(w: Word)
    ensures IdBits(w) == IdBits(Masked(w))
  {
  }

  lemma SizeOfMasked(w: Word)
    ensures SizeBits(w) == SizeBits(Masked(w))
  {
  }

  lemma UnpackMasked(w: Word)
    ensures Unpack(w) == Unpack(Masked(w))
  {
    KindOfMasked(w);
    IdOfMasked(w);
    SizeOfMasked(w);
  }

  /** The fields do not see the valid bit. */
  lemma FieldsIgnoreValidBit(w: Word, v: Word)
    requires Masked(w) == Masked(v)
    ensures Unpack(w) == Unpack(v)
  {
    UnpackMasked(w);
    UnpackMasked(v);
  }
}
