/**
 * A metadata pair: two blocks, of which the one with the more recent revision holds the directory, provided that it
 * holds a complete commit. Writing the other block under the next revision switches the pair over in one step.
 */
module Switch {
  import opened Words
  import opened Fetch

  /** lfs_scmp(a, b) > 0: the 32-bit difference of two revisions, read as a signed number, is positive. */
  predicate Newer(a: Word, b: Word) { 0 < (Unsigned(a) - Unsigned(b)) % TWO32 < 0x8000_0000 }

  /** The next revision, after 0xffffffff the revision 0. */
  function Next(rev: Word): Word { FromNat((Unsigned(rev) + 1) % TWO32) }

  function Rev(block: seq<Byte>): Word
    requires |block| >= 4
  {
    LeAt(block, 0)
  }

  /** A block in which a fetch finds a complete commit. */
  predicate Complete(block: seq<Byte>, prog: nat)
    requires |block| >= 4 && prog > 0
  {
    FetchBlock(block, prog).found.off > 0
  }

  /** What lfs_dir_fetch makes of a pair: which block it settles on and what it finds there. */
  datatype Mdir = Mdir(second: bool, rev: Word, result: Result)

  function Try(block: seq<Byte>, prog: nat, second: bool): Option<Mdir>
    requires |block| >= 4 && prog > 0
  {
    if Complete(block, prog) then Some(Mdir(second, Rev(block), FetchBlock(block, prog))) else None
  }

  /** The most recent block first, then the other; None is LFS_ERR_CORRUPT. */
  function FetchPair(first: seq<Byte>, second: seq<Byte>, prog: nat): Option<Mdir>
    requires |first| >= 4 && |second| >= 4 && prog > 0
  {
    var r := Newer(Rev(second), Rev(first));
    var m := if r then Try(second, prog, true) else Try(first, prog, false);
    if m.Some? then m else if r then Try(first, prog, false) else Try(second, prog, true)
  }

  /** The pair is fetched from this block, whichever way round its addresses are listed. */
  predicate InForce(block: seq<Byte>, other: seq<Byte>, prog: nat)
    requires |block| >= 4 && |other| >= 4 && prog > 0
  {
    && FetchPair(block, other, prog) == Some(Mdir(false, Rev(block), FetchBlock(block, prog)))
    && FetchPair(other, block, prog) == Some(Mdir(true, Rev(block), FetchBlock(block, prog)))
  }

  lemma NotBothNewer(a: Word, b: Word)
    ensures Newer(a, b) ==> !Newer(b, a)
  {
    hide Unsigned;
    var d, e := Unsigned(a) - Unsigned(b), Unsigned(b) - Unsigned(a);
    assert d == -e && -TWO32 < d < TWO32;
  }

  /** Of two revisions one is newer, unless they are the same or half the range of 32 bits apart; distance decides. */
  lemma OneIsNewer(a: Word, b: Word)
    ensures !(Newer(a, b) && Newer(b, a))
    ensures Newer(a, b) || Newer(b, a) || Unsigned(a) == Unsigned(b)
            || (Unsigned(a) - Unsigned(b)) % 0x1_0000_0000 == 0x8000_0000
    ensures Unsigned(b) < Unsigned(a) < Unsigned(b) + 0x8000_0000 ==> Newer(a, b)
    ensures Unsigned(a) + 0x8000_0000 < Unsigned(b) ==> Newer(a, b)
  {
    hide Unsigned;
    NotBothNewer(a, b);
    var d, e := Unsigned(a) - Unsigned(b), Unsigned(b) - Unsigned(a);
    assert d == -e && -TWO32 < d < TWO32;
  }

  lemma UnsignedNext(rev: Word)
    ensures Unsigned(Next(rev)) == (Unsigned(rev) + 1) % TWO32
  {
    hide Unsigned;
  }

  /** The next revision is newer, also when it wraps around. */
  lemma NextIsNewer(rev: Word)
    ensures Newer(Next(rev), rev) && !Newer(rev, Next(rev))
  {
    hide Unsigned, Next;
    UnsignedNext(rev);
    var n, r := Unsigned(Next(rev)), Unsigned(rev);
    if r + 1 < TWO32 {
      assert n - r == 1;
    } else {
      assert n - r == 1 - TWO32;
    }
    NotBothNewer(Next(rev), rev);
  }

  /** Exactly when a pair is fetched from a block: it is complete and the other is not, or it is the newer one. */
  lemma InForceExactly(block: seq<Byte>, other: seq<Byte>, prog: nat)
    requires |block| >= 4 && |other| >= 4 && prog > 0
    ensures InForce(block, other, prog) <==>
            Complete(block, prog) && (Complete(other, prog) ==> Newer(Rev(block), Rev(other)))
    ensures InForce(block, other, prog) ==>
              && FetchPair(block, other, prog) == Some(Mdir(false, LeAt(block, 0), FetchBlock(block, prog)))
              && FetchPair(other, block, prog) == Some(Mdir(true, LeAt(block, 0), FetchBlock(block, prog)))
  {
    hide FetchBlock, LeAt;
    NotBothNewer(Rev(block), Rev(other));
  }

  /** Appending to the block in force leaves it in force. */
  lemma AppendStaysInForce(before: seq<Byte>, after: seq<Byte>, other: seq<Byte>, prog: nat)
    requires |before| >= 4 && |after| >= 4 && |other| >= 4 && prog > 0
    requires InForce(before, other, prog) && Complete(after, prog) && after[..4] == before[..4]
    ensures InForce(after, other, prog)
  {
    hide FetchBlock;
    assert after[0..4] == after[..4] && before[0..4] == before[..4];
    InForceExactly(before, other, prog);
    InForceExactly(after, other, prog);
  }
}
