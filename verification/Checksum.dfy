/** lfs_crc: the nibble-table CRC-32 that closes every commit, against its bit-at-a-time definition. */
module Checksum {
  import opened Words

  /** The polynomial x^32 + x^26 + x^23 + x^22 + x^16 + x^12 + x^11 + x^10 + x^8 + x^7 + x^5 + x^4 + x^2 + x + 1. */
  const POLYNOMIAL: bv32 := 0x04c1_1db7

  /** The same polynomial with its bits in the opposite order, as the reflected CRC uses it. */
  const REFLECTED: bv32 := 0xedb8_8320

  lemma PolynomialReflected(i: bv32)
    requires i <= 31
    ensures (POLYNOMIAL >> i) & 1 == (REFLECTED >> (31 - i)) & 1
  {
  }

  const INIT: Word := Word(0xffff_ffff)

  function Odd(w: Word): bool { w.bits & 1 != 0 }
  function Half(w: Word): Word { Word(w.bits >> 1) }

  /** One step of the reflected shift register. */
  function Shift(crc: Word): Word {
    if Odd(crc) then Xor(Half(crc), Word(0xedb8_8320)) else Half(crc)
  }

  function Shifts(crc: Word, n: nat): Word
    decreases n, crc
  {
    if n == 0 then crc else Shifts(Shift(crc), n - 1)
  }

  function Widen(b: Byte): Word { Word(b.bits as bv32) }

  /** A byte is folded into the register, which then shifts once per bit. */
  function CrcByte(crc: Word, b: Byte): Word { Shifts(Xor(crc, Widen(b)), 8) }

  /** The reflected CRC of some bytes, started from a register value and not complemented at the end. */
  function Crc(crc: Word, data: seq<Byte>): Word {
    if data == [] then crc else CrcByte(Crc(crc, data[..|data| - 1]), data[|data| - 1])
  }

  // ---- Shifting is linear over exclusive or ----

  lemma HalfXor(a: Word, b: Word)
    ensures Half(Xor(a, b)) == Xor(Half(a), Half(b))
  {
  }

  lemma OddXor(a: Word, b: Word)
    ensures Odd(Xor(a, b)) == (Odd(a) != Odd(b))
  {
  }

  lemma XorBoth(x: Word, y: Word, p: Word)
    ensures Xor(Xor(x, p), Xor(y, p)) == Xor(x, y)
  {
    XorAssociative(Xor(x, p), y, p);
    XorSwap(x, p, y);
    XorTwice(Xor(x, y), p);
  }

  lemma ShiftLinear(a: Word, b: Word)
    ensures Shift(Xor(a, b)) == Xor(Shift(a), Shift(b))
  {
    HalfXor(a, b);
    OddXor(a, b);
    var p := Word(0xedb8_8320);
    XorBoth(Half(a), Half(b), p);
    XorSwap(Half(a), Half(b), p);
    XorAssociative(Half(a), Half(b), p);
  }

  lemma {:induction false} ShiftsLinear(a: Word, b: Word, n: nat)
    ensures Shifts(Xor(a, b), n) == Xor(Shifts(a, n), Shifts(b, n))
    decreases n
  {
    if n > 0 {
      ShiftLinear(a, b);
      ShiftsLinear(Shift(a), Shift(b), n - 1);
    }
  }

  lemma {:induction false} ShiftsAdd(crc: Word, m: nat, n: nat)
    ensures Shifts(crc, m + n) == Shifts(Shifts(crc, m), n)
    decreases m
  {
    if m > 0 {
      ShiftsAdd(Shift(crc), m - 1, n);
    }
  }

  lemma FourShifts(w: Word)
    ensures Shifts(w, 4) == Shift(Shift(Shift(Shift(w))))
  {
    var a := Shift(w);
    var b := Shift(a);
    var c := Shift(b);
    assert Shifts(w, 4) == Shifts(a, 3);
    assert Shifts(a, 3) == Shifts(b, 2);
    assert Shifts(b, 2) == Shifts(c, 1);
    assert Shifts(c, 1) == Shifts(Shift(c), 0);
  }

  // ---- The table ----

  const RTABLE: seq<Word> := [
    Word(0x00000000), Word(0x1db71064), Word(0x3b6e20c8), Word(0x26d930ac),
    Word(0x76dc4190), Word(0x6b6b51f4), Word(0x4db26158), Word(0x5005713c),
    Word(0xedb88320), Word(0xf00f9344), Word(0xd6d6a3e8), Word(0xcb61b38c),
    Word(0x9b64c2b0), Word(0x86d3d2d4), Word(0xa00ae278), Word(0xbdbdf21c)
  ]

  /** Each table entry is four shifts of its index. */
  lemma TableEntry(n: bv32)
    requires n <= 0xf
    ensures (n as nat) < |RTABLE| && RTABLE[n as nat] == Shifts(Word(n), 4)
  {
    FourShifts(Word(n));
    if n == 0 {} else if n == 1 {} else if n == 2 {} else if n == 3 {}
    else if n == 4 {} else if n == 5 {} else if n == 6 {} else if n == 7 {}
    else if n == 8 {} else if n == 9 {} else if n == 10 {} else if n == 11 {}
    else if n == 12 {} else if n == 13 {} else if n == 14 {} else {}
  }

  function High(w: Word): Word { Word(w.bits & 0xffff_fff0) }
  function Low(w: Word): Word { Word(w.bits & 0xf) }
  function Down(w: Word): Word { Word(w.bits >> 4) }

  /** The value of a nibble as a table index. */
  function Index(w: Word): (n: nat)
    ensures n < |RTABLE|
  {
    TableEntry(w.bits & 0xf);
    (w.bits & 0xf) as nat
  }

  /** crc = (crc >> 4) ^ rtable[(crc ^ w) & 0xf]. */
  function TableStep(crc: Word, w: Word): Word { Xor(Down(crc), RTABLE[Index(Xor(crc, w))]) }

  lemma HighLow(w: Word)
    ensures Xor(High(w), Low(w)) == w
  {
  }

  lemma HighShifts(w: Word)
    ensures Shifts(High(w), 4) == Down(w)
  {
    FourShifts(High(w));
  }

  /** Four shifts move the register down and fold in what its low nibble alone gives. */
  lemma NibbleSplits(w: Word)
    ensures Shifts(w, 4) == Xor(Down(w), Shifts(Low(w), 4))
  {
    HighLow(w);
    ShiftsLinear(High(w), Low(w), 4);
    HighShifts(w);
  }

  lemma TableStepIsShifts(crc: Word, w: Word)
    ensures TableStep(crc, w) == Xor(Down(crc), Shifts(Low(Xor(crc, w)), 4))
  {
    TableEntry(Xor(crc, w).bits & 0xf);
  }

  lemma DownXor(a: Word, b: Word)
    ensures Down(Xor(a, b)) == Xor(Down(a), Down(b))
  {
  }

  /** A table step is four shifts with the data folded in, up to the data above the nibble. */
  lemma TableStepFolds(crc: Word, w: Word)
    ensures Shifts(Xor(crc, w), 4) == Xor(TableStep(crc, w), Down(w))
  {
    NibbleSplits(Xor(crc, w));
    TableStepIsShifts(crc, w);
    DownXor(crc, w);
    XorSwap(Down(crc), Down(w), Shifts(Low(Xor(crc, w)), 4));
  }

  lemma TwoNibbles(b: Byte)
    ensures Down(Down(Widen(b))) == Word(0)
  {
  }

  /** Two table steps take in one byte. */
  lemma ByteByTable(crc: Word, b: Byte)
    ensures CrcByte(crc, b) == TableStep(TableStep(crc, Widen(b)), Down(Widen(b)))
  {
    var w, c := Widen(b), TableStep(crc, Widen(b));
    ShiftsAdd(Xor(crc, w), 4, 4);
    TableStepFolds(crc, w);
    TableStepFolds(c, Down(w));
    TwoNibbles(b);
    XorZero(TableStep(c, Down(w)));
  }

  lemma CrcSnoc(crc: Word, data: seq<Byte>, b: Byte)
    ensures Crc(crc, data + [b]) == CrcByte(Crc(crc, data), b)
  {
    assert (data + [b])[..|data|] == data;
  }

  /** The table-driven loop computes the bitwise CRC. */
  method LfsCrc(start: Word, data: seq<Byte>) returns (crc: Word)
    ensures crc == Crc(start, data)
  {
    crc := start;
    assert data[..0] == [];
    for i := 0 to |data|
      invariant crc == Crc(start, data[..i])
    {
      ByteByTable(crc, data[i]);
      CrcSnoc(start, data[..i], data[i]);
      assert data[..i + 1] == data[..i] + [data[i]];
      crc := TableStep(crc, Widen(data[i]));
      crc := TableStep(crc, Down(Widen(data[i])));
    }
    assert data[..|data|] == data;
  }

  // ---- Properties the commit format rests on ----

  /** The CRC of a concatenation continues the CRC of its first part. */
  lemma {:induction false} CrcConcat(crc: Word, a: seq<Byte>, b: seq<Byte>)
    ensures Crc(crc, a + b) == Crc(Crc(crc, a), b)
  {
    if b == [] {
      assert a + b == a;
    } else {
      assert (a + b)[..|a + b| - 1] == a + b[..|b| - 1];
      CrcConcat(crc, a, b[..|b| - 1]);
    }
  }

  function LowByte(c: Word): Byte { Byte((c.bits & 0xff) as bv8) }
  function DownByte(c: Word): Word { Word(c.bits >> 8) }

  lemma LowIsZero(w: Word)
    requires w.bits & 0xf == 0
    ensures High(w) == w
  {
  }

  lemma ZerosShiftOut(w: Word)
    requires w.bits & 0xf == 0
    ensures Shifts(w, 4) == Down(w)
  {
    LowIsZero(w);
    HighShifts(w);
  }

  lemma OwnByteCancels(c: Word)
    ensures Xor(c, Widen(LowByte(c))).bits & 0xf == 0
    ensures Down(Xor(c, Widen(LowByte(c)))).bits & 0xf == 0
  {
  }

  lemma OwnByteGone(c: Word)
    ensures Down(Down(Xor(c, Widen(LowByte(c))))) == DownByte(c)
  {
  }

  /** A register that takes in its own low byte shifts it out. */
  lemma OwnByte(c: Word)
    ensures CrcByte(c, LowByte(c)) == DownByte(c)
  {
    var x := Xor(c, Widen(LowByte(c)));
    ShiftsAdd(x, 4, 4);
    OwnByteCancels(c);
    ZerosShiftOut(x);
    ZerosShiftOut(Down(x));
    OwnByteGone(c);
  }

  lemma CrcTwo(c: Word, b0: Byte, b1: Byte)
    ensures Crc(c, [b0, b1]) == CrcByte(CrcByte(c, b0), b1)
  {
    CrcSnoc(c, [], b0);
    CrcSnoc(c, [b0], b1);
    assert [] + [b0] == [b0] && [b0] + [b1] == [b0, b1];
  }

  lemma CrcFour(c: Word, b0: Byte, b1: Byte, b2: Byte, b3: Byte)
    ensures Crc(c, [b0, b1, b2, b3]) == CrcByte(CrcByte(CrcByte(CrcByte(c, b0), b1), b2), b3)
  {
    CrcTwo(c, b0, b1);
    CrcTwo(Crc(c, [b0, b1]), b2, b3);
    CrcConcat(c, [b0, b1], [b2, b3]);
    assert [b0, b1] + [b2, b3] == [b0, b1, b2, b3];
  }

  lemma LeBytes(c: Word)
    ensures ByteOf(c, 0) == LowByte(c) && ByteOf(c, 8) == LowByte(DownByte(c))
    ensures ByteOf(c, 16) == LowByte(DownByte(DownByte(c)))
    ensures ByteOf(c, 24) == LowByte(DownByte(DownByte(DownByte(c))))
    ensures DownByte(DownByte(DownByte(DownByte(c)))) == Word(0)
  {
  }

  lemma OwnWord(c: Word)
    ensures Crc(c, ToLe(c)) == Word(0)
  {
    var c1 := DownByte(c);
    var c2 := DownByte(c1);
    var c3 := DownByte(c2);
    LeBytes(c);
    CrcFour(c, LowByte(c), LowByte(c1), LowByte(c2), LowByte(c3));
    OwnByte(c);
    OwnByte(c1);
    OwnByte(c2);
    OwnByte(c3);
  }

  /** Data followed by its own little-endian CRC has CRC 0: what the write check of lfs_dir_commitcrc relies on. */
  lemma CrcResidue(start: Word, data: seq<Byte>)
    ensures Crc(start, data + ToLe(Crc(start, data))) == Word(0)
  {
    CrcConcat(start, data, ToLe(Crc(start, data)));
    OwnWord(Crc(start, data));
  }
}
