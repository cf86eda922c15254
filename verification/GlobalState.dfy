/** lfs_gstate_t: a pending move, stored as exclusive-or deltas spread over the metadata pairs. */
module GlobalState {
  import opened Words
  import opened Tags
  import opened Log
  import opened Lookup

  /** The tag of the entry being moved away and the pair it is in. */
  datatype GState = GState(tag: Word, first: Word, second: Word)

  const ZERO: GState := GState(Word(0), Word(0), Word(0))

  /** lfs_gstate_xor. */
  function XorG(a: GState, b: GState): GState {
    GState(Xor(a.tag, b.tag), Xor(a.first, b.first), Xor(a.second, b.second))
  }

  /** The 12 bytes stored by a move-state tag. */
  function StateBytes(g: GState): (s: seq<Byte>)
    ensures |s| == 12
  {
    ToLe(g.tag) + ToLe(g.first) + ToLe(g.second)
  }

  function StateOf(s: seq<Byte>): GState
    requires |s| == 12
  {
    GState(FromLe(s[..4]), FromLe(s[4..8]), FromLe(s[8..]))
  }

  lemma StateRoundTrip(g: GState)
    ensures StateOf(StateBytes(g)) == g
  {
    var s := StateBytes(g);
    assert s[..4] == ToLe(g.tag) && s[4..8] == ToLe(g.first) && s[8..] == ToLe(g.second);
    WordRoundTrip(g.tag);
    WordRoundTrip(g.first);
    WordRoundTrip(g.second);
  }

  function StateRec(g: GState): Rec { Rec(Tag(TYPE_MOVESTATE, NO_ID, 12), StateBytes(g)) }

  /** The move state of a pair's log, as lfs_dir_getgstate would add it to zero. */
  function Stored(log: seq<Rec>): GState {
    match Live(NewestRec(log, 0x7ff, TYPE_MOVESTATE))
    case None => ZERO
    case Some(v) => StateOf(ZeroExtended(v.data, 12))
  }

  /** No record of a log is a move state. */
  predicate Stateless(recs: seq<Rec>) { forall i | 0 <= i < |recs| :: !Alike(0x7ff, TYPE_MOVESTATE, recs[i].tag.kind) }

  lemma {:induction false} NewestSkips(log: seq<Rec>, recs: seq<Rec>, kmask: bv11, kind: bv11)
    requires forall i | 0 <= i < |recs| :: !Alike(kmask, kind, recs[i].tag.kind)
    ensures NewestRec(log + recs, kmask, kind) == NewestRec(log, kmask, kind)
    decreases |recs|
  {
    hide Alike;
    if recs == [] {
      assert log + recs == log;
    } else {
      var n := |recs| - 1;
      assert (log + recs)[..|log| + n] == log + recs[..n];
      NewestSkips(log, recs[..n], kmask, kind);
    }
  }

  /** Records that are no move states leave the stored state alone. */
  lemma StoredSkips(log: seq<Rec>, recs: seq<Rec>)
    requires Stateless(recs)
    ensures Stored(log + recs) == Stored(log)
  {
    hide Alike;
    NewestSkips(log, recs, 0x7ff, TYPE_MOVESTATE);
  }

  lemma StateKind()
    ensures Alike(0x7ff, TYPE_MOVESTATE, TYPE_MOVESTATE)
  {
  }

  /** A move state replaces the one before it. */
  lemma StoredReplaced(log: seq<Rec>, g: GState)
    ensures Stored(log + [StateRec(g)]) == g
  {
    hide Alike, StateOf, StateBytes;
    StateKind();
    StateRoundTrip(g);
    assert ZeroExtended(StateBytes(g), 12) == StateBytes(g);
  }

  lemma XorGTwice(a: GState, b: GState)
    ensures XorG(XorG(a, b), b) == a
  {
    hide Xor;
    XorTwice(a.tag, b.tag);
    XorTwice(a.first, b.first);
    XorTwice(a.second, b.second);
  }

  lemma XorGZero(a: GState)
    ensures XorG(a, ZERO) == a && XorG(ZERO, a) == a
  {
    hide Xor;
    XorZero(a.tag);
    XorZero(a.first);
    XorZero(a.second);
    XorSymmetric(a.tag, Word(0));
    XorSymmetric(a.first, Word(0));
    XorSymmetric(a.second, Word(0));
  }
}
