/**
 * Reading a metadata block: lfs_dir_fetchmatch scans the tags of a block forward, keeps the state at the last commit
 * whose checksum matches, and stops at the first tag that is not valid.
 */
module Fetch {
  import opened Words
  import opened Tags
  import opened Log
  import opened Checksum

  /** A metadata pair's two block addresses. */
  datatype Pair = Pair(first: Word, second: Word)

  const NULL_BLOCK: Word := Word(0xffff_ffff)
  const NULL_PAIR: Pair := Pair(NULL_BLOCK, NULL_BLOCK)

  /**
   * What a fetch knows at a commit boundary: where the next tag goes, the tag it is chained to, the log so far, and
   * the tail pointer. off == 0 means that no commit has been found.
   */
  datatype Found = Found(off: nat, etag: Word, log: seq<Rec>, tail: Pair, split: bool)

  const NOTHING: Found := Found(0, BLANK, [], NULL_PAIR, false)

  /** The scan between two tags; best is the last commit boundary passed. */
  datatype State = State(off: nat, ptag: Word, crc: Word, log: seq<Rec>, tail: Pair, split: bool, best: Found)

  datatype Result = Result(found: Found, erased: bool)

  datatype Outcome = Stop(erased: bool) | Go(next: State)

  /** Flips the valid bit. */
  function Flip(w: Word): Word { Word(w.bits ^ 0x8000_0000) }

  /** Whether a CRC tag says that the next tag's valid bit is to be read inverted. */
  predicate Resets(kind: bv11) { Type1(kind) == TYPE_CRC && kind & 1 != 0 }

  /** The word the next tag is chained to. */
  function Chain(tag: Word): Word { if Resets(Unpack(tag).kind) then Flip(tag) else tag }

  /** The scan about to read the first tag after a commit boundary. */
  function Resume(f: Found): State { State(f.off, f.etag, INIT, f.log, f.tail, f.split, f) }

  /** Some bytes of a block, none if they reach past its end. */
  function Bytes(block: seq<Byte>, i: nat, j: nat): seq<Byte> { if i <= j <= |block| then block[i..j] else [] }

  /** The log after one more tag, before or after any commit boundary. */
  function Extend(st: State, end: nat, tag: Word, crc: Word, r: Rec): State {
    State(end, tag, crc, st.log + [r], st.tail, st.split, st.best)
  }

  /** A CRC tag whose checksum matched: everything so far becomes the state of the directory. */
  function Seal(st: State, end: nat, tag: Word, r: Rec): State {
    Resume(Found(end, Chain(tag), st.log + [r], st.tail, st.split))
  }

  /**
   * What a fetch sees of a tag: its word, the bytes of that word, what follows it, and the two words after it, empty
   * when a read of them would leave the block.
   */
  datatype Look = Look(tag: Word, head: seq<Byte>, data: seq<Byte>, low: seq<Byte>, high: seq<Byte>)

  function LookAt(block: seq<Byte>, off: nat, ptag: Word): Look {
    var head := Bytes(block, off, off + 4);
    var tag := Xor(FromBe(head), ptag);
    Look(tag, head, Bytes(block, off + 4, off + Unpack(tag).DSize()),
         Bytes(block, off + 4, off + 8), Bytes(block, off + 8, off + 12))
  }

  /** What a fetch does with a tag. */
  function Decide(size: nat, prog: nat, st: State, l: Look): Outcome
    requires prog > 0
  {
    var t := Unpack(l.tag);
    var end := st.off + t.DSize();
    var r := Rec(t, l.data);
    if l.head == [] then Stop(false)
    else if !IsValid(l.tag) then Stop(Type1(Unpack(st.ptag).kind) == TYPE_CRC && st.best.off % prog == 0)
    else if end > size then Stop(false)
    else if Type1(t.kind) == TYPE_CRC then
      if l.low == [] || Crc(st.crc, l.head) != FromLe(l.low) then Stop(false) else Go(Seal(st, end, l.tag, r))
    else
      var next := Extend(st, end, l.tag, Crc(Crc(st.crc, l.head), l.data), r);
      if Type1(t.kind) != TYPE_TAIL then Go(next)
      else if l.high == [] then Stop(false)
      else Go(next.(tail := Pair(FromLe(l.low), FromLe(l.high)), split := t.kind & 1 != 0))
  }

  /** One tag of the scan. */
  function Step(block: seq<Byte>, prog: nat, st: State): Outcome
    requires prog > 0
  {
    Decide(|block|, prog, st, LookAt(block, st.off, st.ptag))
  }

  /** The whole scan. */
  function Scan(block: seq<Byte>, prog: nat, st: State): Result
    requires prog > 0
    decreases |block| - st.off
  {
    match Step(block, prog, st)
    case Stop(erased) => Result(st.best, erased)
    case Go(next) => Scan(block, prog, next)
  }

  /** Before the first tag: the revision is already in the checksum. */
  function Start(block: seq<Byte>): State
    requires |block| >= 4
  {
    State(4, BLANK, Crc(INIT, block[..4]), [], NULL_PAIR, false, NOTHING)
  }

  function FetchBlock(block: seq<Byte>, prog: nat): Result
    requires |block| >= 4 && prog > 0
  {
    Scan(block, prog, Start(block))
  }

  /** The sizes with which littlefs writes the tags whose contents a fetch interprets. */
  predicate WellSized(r: Rec) {
    && (Type1(r.tag.kind) == TYPE_TAIL ==> r.tag.size == 8)
    && (Type1(r.tag.kind) == TYPE_CRC ==> 4 <= r.tag.size < DELETED_SIZE)
  }

  predicate AllWellSized(log: seq<Rec>) { forall i | 0 <= i < |log| :: WellSized(log[i]) }

  // ---- A scan depends only on what it has passed ----

  lemma ScanStep(block: seq<Byte>, prog: nat, st: State)
    requires prog > 0
    ensures Step(block, prog, st).Go? ==>
              var next := Step(block, prog, st).next;
              && st.off + 4 <= next.off <= |block|
              && |next.log| == |st.log| + 1 && next.log[..|st.log|] == st.log
              && (next.best == st.best || (next.best.off == next.off && next == Resume(next.best)))
  {
  }

  lemma ChainMasked(w: Word)
    ensures Masked(Chain(w)) == Masked(w)
  {
    assert Masked(Flip(w)) == Masked(w);
  }

  /** What a tag that leads on leaves behind. */
  lemma DecideGo(size: nat, prog: nat, st: State, l: Look)
    requires prog > 0 && Decide(size, prog, st, l).Go?
    ensures var next := Decide(size, prog, st, l).next;
            && l.head != [] && next.off == st.off + Unpack(l.tag).DSize() <= size
            && next.log == st.log + [Rec(Unpack(l.tag), l.data)]
            && Masked(next.ptag) == Masked(l.tag)
  {
    ChainMasked(l.tag);
  }

  /** A commit found by a scan ends beyond where the scan stood. */
  lemma {:induction false} ScanAdvances(block: seq<Byte>, prog: nat, st: State)
    requires prog > 0
    ensures var f := Scan(block, prog, st).found; f == st.best || (st.off < f.off <= |block| && st.log <= f.log)
    decreases |block| - st.off
  {
    ScanStep(block, prog, st);
    match Step(block, prog, st)
    case Stop(_) =>
    case Go(next) => ScanAdvances(block, prog, next);
  }

  lemma SameSlice(a: seq<Byte>, b: seq<Byte>, i: nat, j: nat, n: nat)
    requires i <= j <= n <= |a| && n <= |b| && a[..n] == b[..n]
    ensures a[i..j] == b[i..j]
  {
    assert a[i..j] == a[..n][i..j] && b[i..j] == b[..n][i..j];
  }

  lemma SameBytes(a: seq<Byte>, b: seq<Byte>, i: nat, j: nat, n: nat)
    requires |a| == |b| && n <= |a| && a[..n] == b[..n] && j <= n
    ensures Bytes(a, i, j) == Bytes(b, i, j)
  {
    if i <= j {
      SameSlice(a, b, i, j, n);
    }
  }

  /** The outcome of a tag that leads on does not depend on words beyond it. */
  lemma SameDecide(size: nat, prog: nat, st: State, l: Look, m: Look)
    requires prog > 0 && l.tag == m.tag && l.head == m.head && l.data == m.data
    requires Type1(Unpack(l.tag).kind) == TYPE_CRC || Type1(Unpack(l.tag).kind) == TYPE_TAIL ==> l.low == m.low
    requires Type1(Unpack(l.tag).kind) == TYPE_TAIL ==> l.high == m.high
    ensures Decide(size, prog, st, l) == Decide(size, prog, st, m)
  {
  }

  lemma SameStep(a: seq<Byte>, b: seq<Byte>, prog: nat, st: State)
    requires prog > 0 && |a| == |b|
    requires Step(a, prog, st).Go?
    requires a[..Step(a, prog, st).next.off] == b[..Step(a, prog, st).next.off]
    requires WellSized(Step(a, prog, st).next.log[|st.log|])
    ensures Step(b, prog, st) == Step(a, prog, st)
  {
    hide Decide, Crc, FromBe, Xor, Masked;
    DecideGo(|a|, prog, st, LookAt(a, st.off, st.ptag));
    var off, end := st.off, Step(a, prog, st).next.off;
    var l, m := LookAt(a, off, st.ptag), LookAt(b, off, st.ptag);
    var t := Unpack(l.tag);
    SameBytes(a, b, off, off + 4, end);
    SameBytes(a, b, off + 4, off + t.DSize(), end);
    if Type1(t.kind) == TYPE_CRC || Type1(t.kind) == TYPE_TAIL {
      SameBytes(a, b, off + 4, off + 8, end);
    }
    if Type1(t.kind) == TYPE_TAIL {
      SameBytes(a, b, off + 8, off + 12, end);
    }
    SameDecide(|a|, prog, st, l, m);
  }

  /**
   * Two blocks that agree up to a commit boundary are scanned alike up to that boundary: whatever the second block
   * holds beyond it, its scan continues from the boundary.
   */
  lemma {:induction false} ScanSharedPrefix(a: seq<Byte>, b: seq<Byte>, prog: nat, st: State)
    requires prog > 0 && |a| == |b|
    requires Scan(a, prog, st).found != st.best
    requires Scan(a, prog, st).found.off <= |a|
    requires a[..Scan(a, prog, st).found.off] == b[..Scan(a, prog, st).found.off]
    requires AllWellSized(Scan(a, prog, st).found.log)
    ensures Scan(b, prog, st) == Scan(b, prog, Resume(Scan(a, prog, st).found))
    decreases |a| - st.off
  {
    var f := Scan(a, prog, st).found;
    match Step(a, prog, st)
    case Stop(_) =>
    case Go(next) =>
      ScanStep(a, prog, st);
      ScanAdvances(a, prog, next);
      assert next.off <= f.off && next.log <= f.log;
      assert a[..next.off] == a[..f.off][..next.off] && b[..next.off] == b[..f.off][..next.off];
      assert next.log[|st.log|] == f.log[|st.log|];
      SameStep(a, b, prog, st);
      if f != next.best {
        ScanSharedPrefix(a, b, prog, next);
      }
  }
}
