/**
 * The global state over whole runs. Each linked metadata pair stores a delta; the exclusive-or of all of them is what a
 * mount recomputes. In memory lfs->gdisk and lfs->gdelta account for that sum and for the changes that are under way:
 * pairs written but not linked yet, and pairs whose state has been stolen but that are still linked.
 */
module Conservation {
  import opened Words
  import opened Tags
  import opened GlobalState

  /** The low ten bits of a move state's tag count orphans and never reach the disk. */
  function ClearSize(w: Word): Word { Word(w.bits & 0xffff_fc00) }

  /** delta.tag &= ~LFS_MKTAG(0, 0, 0x3ff). */
  function OnDiskPart(g: GState): GState { GState(ClearSize(g.tag), g.first, g.second) }

  /** What reaches the disk of a move state's tag: everything but the size field. */
  lemma ClearedFields(w: Word)
    ensures w.bits == ClearSize(w).bits + (w.bits & 0x3ff)
  {
  }

  lemma ClearXor(a: Word, b: Word)
    ensures ClearSize(Xor(a, b)) == Xor(ClearSize(a), ClearSize(b))
  {
  }

  lemma ClearTwice(a: Word)
    ensures ClearSize(ClearSize(a)) == ClearSize(a)
  {
  }

  lemma PartXor(a: GState, b: GState)
    ensures OnDiskPart(XorG(a, b)) == XorG(OnDiskPart(a), OnDiskPart(b))
  {
    hide ClearSize, Xor;
    ClearXor(a.tag, b.tag);
  }

  lemma PartTwice(a: GState)
    ensures OnDiskPart(OnDiskPart(a)) == OnDiskPart(a)
  {
    hide ClearSize;
    ClearTwice(a.tag);
  }

  lemma XorGAssociative(a: GState, b: GState, c: GState)
    ensures XorG(XorG(a, b), c) == XorG(a, XorG(b, c))
  {
    hide Xor;
    XorAssociative(a.tag, b.tag, c.tag);
    XorAssociative(a.first, b.first, c.first);
    XorAssociative(a.second, b.second, c.second);
  }

  lemma XorGSymmetric(a: GState, b: GState)
    ensures XorG(a, b) == XorG(b, a)
  {
    hide Xor;
    XorSymmetric(a.tag, b.tag);
    XorSymmetric(a.first, b.first);
    XorSymmetric(a.second, b.second);
  }

  lemma XorGSelf(a: GState)
    ensures XorG(a, a) == ZERO
  {
    hide Xor;
    XorGZero(a);
    XorGTwice(ZERO, a);
    XorGZero(XorG(a, a));
    XorSelf(a.tag);
    XorSelf(a.first);
    XorSelf(a.second);
  }

  lemma XorSelf(a: Word)
    ensures Xor(a, a) == Word(0)
  {
  }

  // ---- The state of a filesystem, as far as the global state goes ----

  /** A change of the list of pairs that takes effect with the next commit to some pair of the list. */
  datatype Change =
    /** A pair is new: the tail of a split, or a new directory. */
    | New(p: nat)
    /** A relocated pair p takes the place of t. */
    | Moved(p: nat, t: nat)
    /** A pair is dropped; its state has been stolen. */
    | Gone(t: nat)
  {
    function Added(): Option<nat> { if Gone? then None else Some(p) }
    function Removed(): Option<nat> { if New? then None else Some(t) }
    predicate Touches(q: nat) { Added() == Some(q) || Removed() == Some(q) }
  }

  /** The pairs linked on disk, the changes under way, what each pair stores, and the three copies kept in memory. */
  datatype Fs = Fs(linked: seq<nat>, pending: seq<Change>, stored: map<nat, GState>, gstate: GState, gdisk: GState,
                   gdelta: GState)

  predicate AllDifferent(linked: seq<nat>) { forall i, j | 0 <= i < j < |linked| :: linked[i] != linked[j] }

  /** A pair has no part in any change under way. */
  predicate Untouched(pending: seq<Change>, q: nat) { forall i | 0 <= i < |pending| :: !pending[i].Touches(q) }

  /** A change fits the list: what it removes is there, what it adds is not. */
  predicate FitsList(linked: seq<nat>, stored: map<nat, GState>, c: Change) {
    && (c.Added().Some? ==> c.Added().value !in linked && c.Added().value in stored)
    && (c.Removed().Some? ==> c.Removed().value in linked)
  }

  predicate Independent(a: Change, b: Change) {
    && (a.Added().Some? ==> a.Added() != b.Added())
    && (a.Removed().Some? ==> a.Removed() != b.Removed())
  }

  predicate Wellformed(fs: Fs) {
    && (forall i | 0 <= i < |fs.linked| :: fs.linked[i] in fs.stored)
    && AllDifferent(fs.linked)
    // orphan counts are not stored
    && (forall p | p in fs.stored :: OnDiskPart(fs.stored[p]) == fs.stored[p])
    && (forall i | 0 <= i < |fs.pending| :: FitsList(fs.linked, fs.stored, fs.pending[i]))
    && (forall i, j | 0 <= i < j < |fs.pending| :: Independent(fs.pending[i], fs.pending[j]))
  }

  /** The exclusive-or over some pairs. */
  function Total(linked: seq<nat>, stored: map<nat, GState>): GState {
    if linked == [] then ZERO
    else
      var p := linked[|linked| - 1];
      XorG(Total(linked[..|linked| - 1], stored), if p in stored then stored[p] else ZERO)
  }

  function Of(stored: map<nat, GState>, p: Option<nat>): GState {
    if p.Some? && p.value in stored then stored[p.value] else ZERO
  }

  /** By what a change will alter the sum. */
  function Amount(c: Change, stored: map<nat, GState>): GState { XorG(Of(stored, c.Added()), Of(stored, c.Removed())) }

  function Amounts(pending: seq<Change>, stored: map<nat, GState>): GState {
    if pending == [] then ZERO
    else XorG(Amounts(pending[..|pending| - 1], stored), Amount(pending[|pending| - 1], stored))
  }

  /** The sum once all changes under way have taken effect. */
  function Outlook(fs: Fs): GState { XorG(Total(fs.linked, fs.stored), Amounts(fs.pending, fs.stored)) }

  /** Memory accounts for the disk and the changes under way. */
  predicate Balanced(fs: Fs) { OnDiskPart(Outlook(fs)) == OnDiskPart(XorG(fs.gdisk, fs.gdelta)) }

  /** What memory knows of the disk is what the disk says. */
  predicate Conserved(fs: Fs) {
    OnDiskPart(Total(fs.linked, fs.stored)) == OnDiskPart(XorG(fs.gdisk, fs.gdelta))
  }

  /** What a commit that carries the global state adds to a pair. */
  function Delta(gstate: GState, gdisk: GState, gdelta: GState): GState {
    OnDiskPart(XorG(XorG(gstate, gdisk), gdelta))
  }

  datatype Event =
    /** lfs_fs_prepmove or lfs_fs_preporphans: only memory changes. */
    | Prepare(g: GState)
    /** A pair not linked yet is written; if it had to be relocated on the way, with only what was stolen before. */
    | Write(p: nat, relocated: bool)
    /** A compaction that had to relocate its pair t to c: only what was stolen before is carried over. */
    | Relocate(t: nat, c: nat)
    /** The first half of lfs_dir_drop: the state of t is stolen. */
    | Steal(t: nat)
    /** A commit or compaction of q, with which the changes from the n-th on take effect. */
    | Commit(q: nat, n: nat)
    /** An error: the changes from the n-th on are given up. */
    | Abandon(n: nat)
    /** Power loss and a new mount. */
    | Mount

  predicate Enabled(fs: Fs, e: Event) {
    match e
    case Prepare(_) => true
    case Write(p, _) => p !in fs.linked && Untouched(fs.pending, p)
    case Relocate(t, c) => t in fs.linked && c !in fs.linked && Untouched(fs.pending, t) && Untouched(fs.pending, c)
    case Steal(t) => t in fs.linked && Untouched(fs.pending, t)
    case Commit(q, n) => q in fs.linked && n <= |fs.pending| && Untouched(fs.pending, q)
    case Abandon(n) => n <= |fs.pending|
    case Mount => true
  }

  function Without(linked: seq<nat>, t: nat): seq<nat> {
    if linked == [] then []
    else if linked[|linked| - 1] == t then linked[..|linked| - 1]
    else Without(linked[..|linked| - 1], t) + [linked[|linked| - 1]]
  }

  /** The list after a change. */
  function Changed(linked: seq<nat>, c: Change): seq<nat> {
    (if c.Removed().Some? then Without(linked, c.Removed().value) else linked)
      + (if c.Added().Some? then [c.Added().value] else [])
  }

  /** The changes from the n-th on take effect. */
  function Land(fs: Fs, n: nat): Fs
    decreases |fs.pending|
  {
    var k := |fs.pending|;
    if k <= n then fs
    else Land(fs.(linked := Changed(fs.linked, fs.pending[k - 1]), pending := fs.pending[..k - 1]), n)
  }

  /** A successful commit of the global state to q, whatever else it does. */
  function Carry(fs: Fs, q: nat): Fs {
    fs.(stored := fs.stored[q := XorG(Of(fs.stored, Some(q)), Delta(fs.gstate, fs.gdisk, fs.gdelta))],
        gdisk := fs.gstate, gdelta := ZERO)
  }

  /** lfs->gstate.tag += !lfs_tag_isvalid(lfs->gstate.tag), on the sum found by a mount. */
  function Mounted(sum: GState): GState {
    if IsValid(sum.tag) then sum else sum.(tag := Word(sum.tag.bits + 1))
  }

  /** A mount counts an orphan exactly if the flag for orphans, the top bit of what is stored, is set; then just one. */
  lemma MountedOrphans(sum: GState)
    requires OnDiskPart(sum) == sum
    ensures Unpack(Mounted(sum).tag).size == if sum.tag.bits & 0x8000_0000 != 0 then 1 else 0
    ensures OnDiskPart(Mounted(sum)) == sum
  {
    OneOrphan(sum.tag);
  }

  lemma OneOrphan(w: Word)
    requires ClearSize(w) == w
    ensures SizeBits(w) == 0 && SizeBits(Word(w.bits + 1)) == 1 && ClearSize(Word(w.bits + 1)) == w
  {
  }

  function Next(fs: Fs, e: Event): Fs
    requires Wellformed(fs) && Enabled(fs, e)
  {
    match e
    case Prepare(g) => fs.(gstate := g)
    case Write(p, relocated) =>
      var d := if relocated then OnDiskPart(fs.gdelta) else Delta(fs.gstate, fs.gdisk, fs.gdelta);
      fs.(stored := fs.stored[p := d], pending := fs.pending + [New(p)],
          gdisk := if relocated then fs.gdisk else fs.gstate, gdelta := ZERO)
    case Relocate(t, c) =>
      fs.(stored := fs.stored[c := XorG(Of(fs.stored, Some(t)), OnDiskPart(fs.gdelta))],
          pending := fs.pending + [Moved(c, t)], gdelta := ZERO)
    case Steal(t) => fs.(gdelta := XorG(fs.gdelta, Of(fs.stored, Some(t))), pending := fs.pending + [Gone(t)])
    case Commit(q, n) => Carry(Land(fs, n), q)
    case Abandon(n) => fs.(pending := fs.pending[..n])
    case Mount =>
      var g := Mounted(Total(fs.linked, fs.stored));
      fs.(pending := [], gstate := g, gdisk := g, gdelta := ZERO)
  }

  // ---- Sums ----

  lemma {:induction false} TotalIgnores(linked: seq<nat>, stored: map<nat, GState>, p: nat, g: GState)
    requires p !in linked
    ensures Total(linked, stored[p := g]) == Total(linked, stored)
  {
    hide XorG;
    if linked != [] {
      assert linked[|linked| - 1] in linked;
      TotalIgnores(linked[..|linked| - 1], stored, p, g);
    }
  }

  /** Adding a delta to one linked pair adds it to the sum. */
  lemma {:induction false} TotalAdds(linked: seq<nat>, stored: map<nat, GState>, p: nat, d: GState)
    requires p in linked && p in stored && AllDifferent(linked)
    ensures Total(linked, stored[p := XorG(stored[p], d)]) == XorG(Total(linked, stored), d)
  {
    hide XorG;
    var n := |linked| - 1;
    var s := stored[p := XorG(stored[p], d)];
    if linked[n] == p {
      TotalIgnores(linked[..n], stored, p, XorG(stored[p], d));
      XorGAssociative(Total(linked[..n], stored), stored[p], d);
    } else {
      TotalAdds(linked[..n], stored, p, d);
      var x := if linked[n] in stored then stored[linked[n]] else ZERO;
      XorGAssociative(Total(linked[..n], stored), d, x);
      XorGSymmetric(d, x);
      XorGAssociative(Total(linked[..n], stored), x, d);
    }
  }

  lemma {:induction false} WithoutKeeps(linked: seq<nat>, t: nat)
    requires AllDifferent(linked)
    ensures AllDifferent(Without(linked, t))
    ensures forall p :: p in Without(linked, t) <==> p in linked && p != t
  {
    if linked != [] {
      var n := |linked| - 1;
      WithoutKeeps(linked[..n], t);
      assert linked == linked[..n] + [linked[n]];
      assert linked[n] !in linked[..n];
    }
  }

  /** Unlinking a pair takes its delta out of the sum. */
  lemma {:induction false} TotalWithout(linked: seq<nat>, stored: map<nat, GState>, t: nat)
    requires t in linked && t in stored && AllDifferent(linked)
    ensures XorG(Total(Without(linked, t), stored), stored[t]) == Total(linked, stored)
  {
    hide XorG;
    var n := |linked| - 1;
    if linked[n] != t {
      TotalWithout(linked[..n], stored, t);
      var w, x := Without(linked[..n], t), if linked[n] in stored then stored[linked[n]] else ZERO;
      assert (w + [linked[n]])[..|w|] == w;
      XorGAssociative(Total(w, stored), x, stored[t]);
      XorGSymmetric(x, stored[t]);
      XorGAssociative(Total(w, stored), stored[t], x);
    }
  }

  /** Only the pairs that a change names matter to its amount. */
  lemma AmountIgnores(c: Change, stored: map<nat, GState>, p: nat, g: GState)
    requires !c.Touches(p)
    ensures Amount(c, stored[p := g]) == Amount(c, stored)
  {
    hide XorG;
  }

  lemma {:induction false} AmountsIgnore(pending: seq<Change>, stored: map<nat, GState>, p: nat, g: GState)
    requires Untouched(pending, p)
    ensures Amounts(pending, stored[p := g]) == Amounts(pending, stored)
  {
    hide XorG, Amount;
    if pending != [] {
      AmountIgnores(pending[|pending| - 1], stored, p, g);
      AmountsIgnore(pending[..|pending| - 1], stored, p, g);
    }
  }

  lemma {:induction false} AmountsSplit(pending: seq<Change>, n: nat, stored: map<nat, GState>)
    requires n <= |pending|
    ensures Amounts(pending, stored) == XorG(Amounts(pending[..n], stored), Amounts(pending[n..], stored))
    decreases |pending|
  {
    hide XorG, Amount;
    var k := |pending| - 1;
    if n == |pending| {
      assert pending[..n] == pending;
      XorGZeroRight(Amounts(pending, stored));
    } else {
      AmountsSplit(pending[..k], n, stored);
      assert pending[..k][..n] == pending[..n] && pending[..k][n..] == pending[n..][..k - n];
      XorGAssociative(Amounts(pending[..n], stored), Amounts(pending[n..k], stored), Amount(pending[k], stored));
      assert pending[n..k] == pending[n..][..k - n] && pending[n..][k - n] == pending[k];
    }
  }

  lemma AmountsSnoc(pending: seq<Change>, c: Change, stored: map<nat, GState>)
    ensures Amounts(pending + [c], stored) == XorG(Amounts(pending, stored), Amount(c, stored))
  {
    assert (pending + [c])[..|pending|] == pending;
  }

  /** A change alters the sum by its amount, and leaves a list. */
  lemma ChangedTotal(linked: seq<nat>, c: Change, stored: map<nat, GState>)
    requires AllDifferent(linked) && FitsList(linked, stored, c) && forall p | p in linked :: p in stored
    ensures Total(Changed(linked, c), stored) == XorG(Total(linked, stored), Amount(c, stored))
    ensures AllDifferent(Changed(linked, c))
    ensures forall q :: q in Changed(linked, c) <==> (q in linked && c.Removed() != Some(q)) || c.Added() == Some(q)
  {
    hide XorG;
    var sum, plus, minus := Total(linked, stored), Of(stored, c.Added()), Of(stored, c.Removed());
    var rest := if c.Removed().Some? then Without(linked, c.Removed().value) else linked;
    if c.Removed().Some? {
      WithoutKeeps(linked, c.Removed().value);
      TotalWithout(linked, stored, c.Removed().value);
      XorGTwice(Total(rest, stored), minus);
    } else {
      XorGZeroRight(sum);
    }
    assert Total(rest, stored) == XorG(sum, minus);
    XorGAssociative(sum, minus, plus);
    XorGSymmetric(minus, plus);
    if c.Added().Some? {
      var q := c.Added().value;
      Distinct(rest, q);
      assert (rest + [q])[..|rest|] == rest;
    } else {
      assert rest + [] == rest;
      XorGZeroRight(XorG(sum, minus));
    }
  }

  // ---- Main results ----

  lemma PartBoth(a: GState, b: GState, x: GState)
    requires OnDiskPart(a) == OnDiskPart(b)
    ensures OnDiskPart(XorG(a, x)) == OnDiskPart(XorG(b, x))
  {
    hide OnDiskPart, XorG;
    PartXor(a, x);
    PartXor(b, x);
  }

  /** A delta cancels what it was computed from. */
  lemma DeltaCancels(sum: GState, gstate: GState, gdisk: GState, gdelta: GState)
    requires OnDiskPart(sum) == OnDiskPart(XorG(gdisk, gdelta))
    ensures OnDiskPart(XorG(sum, Delta(gstate, gdisk, gdelta))) == OnDiskPart(gstate)
  {
    hide OnDiskPart, XorG;
    var d := XorG(XorG(gstate, gdisk), gdelta);
    var k := XorG(gdisk, gdelta);
    XorGAssociative(gstate, gdisk, gdelta);
    PartXor(sum, OnDiskPart(d));
    PartTwice(d);
    PartXor(sum, d);
    PartBoth(sum, k, d);
    XorGSymmetric(gstate, k);
    XorGSymmetric(k, XorG(gstate, k));
    XorGTwice(gstate, k);
  }

  lemma DeltaIsPart(gstate: GState, gdisk: GState, gdelta: GState)
    ensures OnDiskPart(Delta(gstate, gdisk, gdelta)) == Delta(gstate, gdisk, gdelta)
  {
    hide OnDiskPart, XorG;
    PartTwice(XorG(XorG(gstate, gdisk), gdelta));
  }

  lemma XorGZeroRight(a: GState)
    ensures XorG(a, ZERO) == a
  {
    XorGZero(a);
  }

  lemma Distinct(linked: seq<nat>, p: nat)
    requires p !in linked && AllDifferent(linked)
    ensures AllDifferent(linked + [p])
  {
    forall i, j | 0 <= i < j < |linked + [p]| ensures (linked + [p])[i] != (linked + [p])[j] {
      if j == |linked| {
        assert linked[i] in linked;
      }
    }
  }

  /** One change takes effect. */
  lemma LandOne(fs: Fs)
    requires Wellformed(fs) && fs.pending != []
    ensures var k := |fs.pending| - 1;
            var n := fs.(linked := Changed(fs.linked, fs.pending[k]), pending := fs.pending[..k]);
            && Wellformed(n) && Outlook(n) == Outlook(fs)
            && forall q | Untouched(fs.pending, q) :: Untouched(n.pending, q) && (q in n.linked <==> q in fs.linked)
  {
    hide XorG, Amount, Changed, OnDiskPart;
    var k := |fs.pending| - 1;
    var c := fs.pending[k];
    var n := fs.(linked := Changed(fs.linked, c), pending := fs.pending[..k]);
    ChangedTotal(fs.linked, c, fs.stored);
    var sum, a, x := Total(fs.linked, fs.stored), Amounts(fs.pending[..k], fs.stored), Amount(c, fs.stored);
    XorGAssociative(sum, x, a);
    XorGSymmetric(x, a);
    forall i | 0 <= i < |n.linked| ensures n.linked[i] in n.stored {
      assert n.linked[i] in n.linked;
    }
    forall i | 0 <= i < k ensures FitsList(n.linked, n.stored, n.pending[i]) {
      assert FitsList(fs.linked, fs.stored, fs.pending[i]) && Independent(fs.pending[i], c);
    }
  }

  lemma {:induction false} LandAll(fs: Fs, n: nat)
    requires Wellformed(fs) && n <= |fs.pending|
    ensures var m := Land(fs, n);
            && Wellformed(m) && Outlook(m) == Outlook(fs) && m.pending == fs.pending[..n] && m.stored == fs.stored
            && m.gstate == fs.gstate && m.gdisk == fs.gdisk && m.gdelta == fs.gdelta
            && forall q | Untouched(fs.pending, q) :: Untouched(m.pending, q) && (q in m.linked <==> q in fs.linked)
    decreases |fs.pending|
  {
    hide XorG, Amount, Changed, OnDiskPart, Outlook, Wellformed, Untouched;
    var k := |fs.pending|;
    if k > n {
      LandOne(fs);
      LandAll(fs.(linked := Changed(fs.linked, fs.pending[k - 1]), pending := fs.pending[..k - 1]), n);
      assert fs.pending[..k - 1][..n] == fs.pending[..n];
    }
  }

  /** A commit that carries the global state makes the disk say what memory wants. */
  lemma CarryBalances(fs: Fs, q: nat)
    requires Wellformed(fs) && Balanced(fs) && q in fs.linked && Untouched(fs.pending, q)
    ensures var n := Carry(fs, q);
            Wellformed(n) && Balanced(n) && OnDiskPart(Outlook(n)) == OnDiskPart(n.gstate)
  {
    hide OnDiskPart, XorG, Delta, Total, Amounts;
    var d := Delta(fs.gstate, fs.gdisk, fs.gdelta);
    var sum, a := Total(fs.linked, fs.stored), Amounts(fs.pending, fs.stored);
    DeltaIsPart(fs.gstate, fs.gdisk, fs.gdelta);
    PartXor(fs.stored[q], d);
    TotalAdds(fs.linked, fs.stored, q, d);
    AmountsIgnore(fs.pending, fs.stored, q, XorG(fs.stored[q], d));
    XorGAssociative(sum, d, a);
    XorGSymmetric(d, a);
    XorGAssociative(sum, a, d);
    DeltaCancels(Outlook(fs), fs.gstate, fs.gdisk, fs.gdelta);
    XorGZeroRight(fs.gstate);
    FitsOn(fs, q, XorG(fs.stored[q], d));
  }

  /** Storing something new in a pair changes nothing else about the lists. */
  lemma FitsOn(fs: Fs, p: nat, g: GState)
    requires Wellformed(fs) && OnDiskPart(g) == g
    ensures Wellformed(fs.(stored := fs.stored[p := g]))
  {
    hide OnDiskPart;
    var n := fs.(stored := fs.stored[p := g]);
    forall i | 0 <= i < |n.pending| ensures FitsList(n.linked, n.stored, n.pending[i]) {
      assert FitsList(fs.linked, fs.stored, fs.pending[i]);
    }
    forall q | q in n.stored ensures OnDiskPart(n.stored[q]) == n.stored[q] {
      assert q == p || q in fs.stored;
    }
  }

  /** Some change begins, having put g into the pair it adds; the outlook alters by its amount. */
  lemma Begins(fs: Fs, p: nat, g: GState, c: Change)
    requires Wellformed(fs) && OnDiskPart(g) == g && p !in fs.linked && Untouched(fs.pending, p)
    requires c == New(p) || (c.Moved? && c.p == p && c.t in fs.linked && Untouched(fs.pending, c.t))
    ensures var n := fs.(stored := fs.stored[p := g], pending := fs.pending + [c]);
            Wellformed(n) && Outlook(n) == XorG(Outlook(fs), if c.Moved? then XorG(g, fs.stored[c.t]) else g)
  {
    hide OnDiskPart, XorG, Amounts, Total;
    var n := fs.(stored := fs.stored[p := g], pending := fs.pending + [c]);
    FitsOn(fs, p, g);
    Grows(fs.(stored := fs.stored[p := g]), c);
    TotalIgnores(fs.linked, fs.stored, p, g);
    AmountsIgnore(fs.pending, fs.stored, p, g);
    AmountsSnoc(fs.pending, c, n.stored);
    XorGZeroRight(g);
    XorGAssociative(Total(fs.linked, fs.stored), Amounts(fs.pending, fs.stored), Amount(c, n.stored));
  }

  /** One more change under way. */
  lemma Grows(fs: Fs, c: Change)
    requires Wellformed(fs) && FitsList(fs.linked, fs.stored, c)
    requires c.Added().Some? ==> Untouched(fs.pending, c.Added().value)
    requires c.Removed().Some? ==> Untouched(fs.pending, c.Removed().value)
    ensures Wellformed(fs.(pending := fs.pending + [c]))
  {
    hide OnDiskPart;
    var n := fs.pending + [c];
    forall i, j | 0 <= i < j < |n| ensures Independent(n[i], n[j]) {
      if j == |fs.pending| {
        assert c.Added().Some? ==> !fs.pending[i].Touches(c.Added().value);
        assert c.Removed().Some? ==> !fs.pending[i].Touches(c.Removed().value);
      }
    }
  }

  /** A new pair takes over whatever memory still had to carry. */
  lemma WriteBalances(fs: Fs, p: nat, relocated: bool)
    requires Wellformed(fs) && Balanced(fs) && Enabled(fs, Write(p, relocated))
    ensures Wellformed(Next(fs, Write(p, relocated))) && Balanced(Next(fs, Write(p, relocated)))
  {
    hide OnDiskPart, XorG, Delta, Outlook;
    if relocated {
      PartTwice(fs.gdelta);
      StolenMoves(fs);
      Begins(fs, p, OnDiskPart(fs.gdelta), New(p));
      SameOutlook(fs.(stored := fs.stored[p := OnDiskPart(fs.gdelta)], pending := fs.pending + [New(p)]),
        Next(fs, Write(p, relocated)));
    } else {
      DeltaIsPart(fs.gstate, fs.gdisk, fs.gdelta);
      DeltaCancels(Outlook(fs), fs.gstate, fs.gdisk, fs.gdelta);
      XorGZeroRight(fs.gstate);
      var d := Delta(fs.gstate, fs.gdisk, fs.gdelta);
      Begins(fs, p, d, New(p));
      SameOutlook(fs.(stored := fs.stored[p := d], pending := fs.pending + [New(p)]), Next(fs, Write(p, relocated)));
    }
  }

  /** Moving what was stolen to some pair. */
  lemma StolenMoves(fs: Fs)
    requires Balanced(fs)
    ensures OnDiskPart(XorG(Outlook(fs), OnDiskPart(fs.gdelta))) == OnDiskPart(XorG(fs.gdisk, ZERO))
  {
    hide OnDiskPart, XorG, Outlook;
    var out := Outlook(fs);
    PartXor(out, OnDiskPart(fs.gdelta));
    PartTwice(fs.gdelta);
    PartXor(out, fs.gdelta);
    PartBoth(out, XorG(fs.gdisk, fs.gdelta), fs.gdelta);
    XorGTwice(fs.gdisk, fs.gdelta);
    XorGZeroRight(fs.gdisk);
  }

  lemma RelocateBalances(fs: Fs, t: nat, c: nat)
    requires Wellformed(fs) && Balanced(fs) && Enabled(fs, Relocate(t, c))
    ensures Wellformed(Next(fs, Relocate(t, c))) && Balanced(Next(fs, Relocate(t, c)))
  {
    hide OnDiskPart, XorG, Delta, Outlook;
    var x, d := fs.stored[t], OnDiskPart(fs.gdelta);
    PartTwice(fs.gdelta);
    PartXor(x, d);
    XorGSymmetric(x, d);
    XorGTwice(d, x);
    StolenMoves(fs);
    Begins(fs, c, XorG(x, d), Moved(c, t));
    SameOutlook(fs.(stored := fs.stored[c := XorG(x, d)], pending := fs.pending + [Moved(c, t)]),
      Next(fs, Relocate(t, c)));
  }

  lemma StealBalances(fs: Fs, t: nat)
    requires Wellformed(fs) && Balanced(fs) && Enabled(fs, Steal(t))
    ensures Wellformed(Next(fs, Steal(t))) && Balanced(Next(fs, Steal(t)))
  {
    hide OnDiskPart, XorG, Amounts, Total;
    var x := fs.stored[t];
    Grows(fs, Gone(t));
    AmountsSnoc(fs.pending, Gone(t), fs.stored);
    XorGZero(x);
    XorGAssociative(Total(fs.linked, fs.stored), Amounts(fs.pending, fs.stored), x);
    PartBoth(Outlook(fs), XorG(fs.gdisk, fs.gdelta), x);
    XorGAssociative(fs.gdisk, fs.gdelta, x);
  }

  lemma ZeroIsPart()
    ensures OnDiskPart(ZERO) == ZERO
  {
  }

  lemma SmallIncrement(w: Word)
    requires ClearSize(w) == w
    ensures ClearSize(Word(w.bits + 1)) == w
  {
  }

  /** The orphan count that a mount sets does not touch what is on disk. */
  lemma MountedPart(sum: GState)
    requires OnDiskPart(sum) == sum
    ensures OnDiskPart(Mounted(sum)) == sum
  {
    hide IsValid, ClearSize;
    SmallIncrement(sum.tag);
  }

  lemma {:induction false} TotalIsPart(linked: seq<nat>, stored: map<nat, GState>)
    requires forall p | p in stored :: OnDiskPart(stored[p]) == stored[p]
    ensures OnDiskPart(Total(linked, stored)) == Total(linked, stored)
  {
    hide OnDiskPart, XorG;
    ZeroIsPart();
    if linked != [] {
      var p := linked[|linked| - 1];
      TotalIsPart(linked[..|linked| - 1], stored);
      PartXor(Total(linked[..|linked| - 1], stored), if p in stored then stored[p] else ZERO);
    }
  }

  lemma MountBalances(fs: Fs)
    requires Wellformed(fs)
    ensures var n := Next(fs, Mount);
            Wellformed(n) && Balanced(n) && OnDiskPart(Outlook(n)) == OnDiskPart(n.gstate)
  {
    hide OnDiskPart, XorG, Mounted;
    TotalIsPart(fs.linked, fs.stored);
    MountedPart(Total(fs.linked, fs.stored));
    XorGZeroRight(Mounted(Total(fs.linked, fs.stored)));
    XorGZeroRight(Total(fs.linked, fs.stored));
  }

  lemma {:induction false} AmountsArePart(pending: seq<Change>, stored: map<nat, GState>)
    requires forall p | p in stored :: OnDiskPart(stored[p]) == stored[p]
    ensures OnDiskPart(Amounts(pending, stored)) == Amounts(pending, stored)
  {
    hide OnDiskPart, XorG;
    ZeroIsPart();
    if pending != [] {
      var c := pending[|pending| - 1];
      AmountsArePart(pending[..|pending| - 1], stored);
      PartXor(Of(stored, c.Added()), Of(stored, c.Removed()));
      PartXor(Amounts(pending[..|pending| - 1], stored), Amount(c, stored));
    }
  }

  /** Adding something changes the part on disk unless it is nothing. */
  lemma XorNothing(a: GState, x: GState)
    requires OnDiskPart(x) == x
    ensures OnDiskPart(XorG(a, x)) == OnDiskPart(a) <==> x == ZERO
  {
    hide OnDiskPart, XorG;
    var k := OnDiskPart(a);
    PartXor(a, x);
    XorGZeroRight(k);
    XorGZeroRight(x);
    XorGSymmetric(k, x);
    XorGTwice(x, k);
    XorGSelf(k);
    XorGZero(x);
  }

  /** An error leaves the accounts wrong exactly when the changes given up carried some state. */
  lemma AbandonExactly(fs: Fs, n: nat)
    requires Wellformed(fs) && Balanced(fs) && n <= |fs.pending|
    ensures Wellformed(Next(fs, Abandon(n)))
    ensures Balanced(Next(fs, Abandon(n))) <==> Amounts(fs.pending[n..], fs.stored) == ZERO
  {
    hide OnDiskPart, XorG, Total, Amounts;
    var x, a := Amounts(fs.pending[n..], fs.stored), Amounts(fs.pending[..n], fs.stored);
    AmountsSplit(fs.pending, n, fs.stored);
    AmountsArePart(fs.pending[n..], fs.stored);
    XorGAssociative(Total(fs.linked, fs.stored), a, x);
    XorNothing(XorG(Total(fs.linked, fs.stored), a), x);
  }

  /** While changes are under way, memory and disk agree exactly when these carry no state. */
  lemma ConservedExactly(fs: Fs)
    requires Wellformed(fs) && Balanced(fs)
    ensures Conserved(fs) <==> Amounts(fs.pending, fs.stored) == ZERO
  {
    hide OnDiskPart, XorG, Total, Amounts;
    AmountsArePart(fs.pending, fs.stored);
    XorNothing(Total(fs.linked, fs.stored), Amounts(fs.pending, fs.stored));
  }

  /** A new pair that is not linked yet makes memory and disk disagree exactly when some state was to be carried. */
  lemma WriteExactly(fs: Fs, p: nat)
    requires Wellformed(fs) && Conserved(fs) && fs.pending == [] && p !in fs.linked
    ensures Conserved(Next(fs, Write(p, false))) <==> Delta(fs.gstate, fs.gdisk, fs.gdelta) == ZERO
  {
    hide OnDiskPart, XorG, Total, Delta;
    var d := Delta(fs.gstate, fs.gdisk, fs.gdelta);
    XorGZeroRight(Total(fs.linked, fs.stored));
    WriteBalances(fs, p, false);
    ConservedExactly(Next(fs, Write(p, false)));
    assert fs.pending + [New(p)] == [New(p)] && [New(p)][..0] == [];
    XorGZero(d);
  }

  /** A drop whose commit fails leaves the accounts wrong exactly when the pair had some state to steal. */
  lemma FailedDropExactly(fs: Fs, t: nat)
    requires Wellformed(fs) && Conserved(fs) && fs.pending == [] && t in fs.linked
    ensures var n := Next(fs, Steal(t));
            Wellformed(n) && Enabled(n, Abandon(0)) && (Conserved(Next(n, Abandon(0))) <==> fs.stored[t] == ZERO)
  {
    hide OnDiskPart, XorG, Total;
    var n := Next(fs, Steal(t));
    XorGZeroRight(Total(fs.linked, fs.stored));
    StealBalances(fs, t);
    AbandonExactly(n, 0);
    assert n.pending == [Gone(t)] && [Gone(t)][..0] == [] && [Gone(t)][0..] == [Gone(t)];
    XorGZero(fs.stored[t]);
  }

  /** Does an event end with memory and disk agreeing on the state that memory wants? */
  predicate Settles(e: Event) { e.Commit? || e.Mount? }

  /** An event that gives up no state. */
  predicate Keeps(fs: Fs, e: Event) {
    e.Abandon? && e.n <= |fs.pending| ==> Amounts(fs.pending[e.n..], fs.stored) == ZERO
  }

  /** Every event keeps the accounts, but for an error that gives up some state. */
  lemma StepBalances(fs: Fs, e: Event)
    requires Wellformed(fs) && Balanced(fs) && Enabled(fs, e)
    ensures Wellformed(Next(fs, e))
    ensures Balanced(Next(fs, e)) <==> Keeps(fs, e)
    ensures Settles(e) ==> OnDiskPart(Outlook(Next(fs, e))) == OnDiskPart(Next(fs, e).gstate)
  {
    hide OnDiskPart, XorG, Carry, Amounts, Outlook;
    match e
    case Prepare(_) => SameOutlook(fs, Next(fs, e));
    case Write(p, relocated) => WriteBalances(fs, p, relocated);
    case Relocate(t, c) => RelocateBalances(fs, t, c);
    case Steal(t) => StealBalances(fs, t);
    case Commit(q, n) =>
      LandAll(fs, n);
      CarryBalances(Land(fs, n), q);
    case Abandon(n) => AbandonExactly(fs, n);
    case Mount => MountBalances(fs);
  }

  lemma SameOutlook(fs: Fs, n: Fs)
    requires n.linked == fs.linked && n.pending == fs.pending && n.stored == fs.stored
    ensures Outlook(n) == Outlook(fs)
  {
  }

  /** A run in which every event is possible and no error gives up some state. */
  predicate Possible(fs: Fs, run: seq<Event>)
    requires Wellformed(fs) && Balanced(fs)
    decreases |run|
  {
    run == [] ||
    (Enabled(fs, run[0]) && Keeps(fs, run[0]) && (StepBalances(fs, run[0]); Possible(Next(fs, run[0]), run[1..])))
  }

  function After(fs: Fs, run: seq<Event>): Fs
    requires Wellformed(fs) && Balanced(fs) && Possible(fs, run)
    decreases |run|
  {
    if run == [] then fs else (StepBalances(fs, run[0]); After(Next(fs, run[0]), run[1..]))
  }

  /**
   * Conservation over whole runs. After any run of commits, compactions, splits, relocations, drops and mounts the
   * stored deltas and the changes under way add up to gdisk and gdelta. With no change under way the disk alone does;
   * after a run that ends with a commit it adds up to gstate, which a mount then finds.
   */
  lemma {:induction false} RunConserves(fs: Fs, run: seq<Event>)
    requires Wellformed(fs) && Balanced(fs) && Possible(fs, run)
    ensures var n := After(fs, run);
            && Wellformed(n) && Balanced(n) && (Conserved(n) <==> Amounts(n.pending, n.stored) == ZERO)
            && (run != [] && Settles(run[|run| - 1]) && n.pending == [] ==>
                  && OnDiskPart(Total(n.linked, n.stored)) == OnDiskPart(n.gstate)
                  && OnDiskPart(Next(n, Mount).gstate) == OnDiskPart(n.gstate))
    decreases |run|
  {
    hide OnDiskPart, XorG, Conserved, Wellformed, Balanced, Amounts, Total, Outlook;
    if run == [] {
      ConservedExactly(fs);
    } else {
      StepBalances(fs, run[0]);
      RunConserves(Next(fs, run[0]), run[1..]);
      if |run| == 1 {
        assert After(fs, run) == Next(fs, run[0]);
        if After(fs, run).pending == [] {
          OutlookAlone(After(fs, run));
        }
        MountFinds(After(fs, run));
      } else {
        assert run[1..][|run| - 2] == run[|run| - 1];
      }
    }
  }

  lemma OutlookAlone(fs: Fs)
    requires fs.pending == []
    ensures Outlook(fs) == Total(fs.linked, fs.stored)
  {
    hide XorG, Total;
    XorGZeroRight(Total(fs.linked, fs.stored));
  }

  /** What a mount finds is the sum. */
  lemma MountFinds(fs: Fs)
    requires Wellformed(fs)
    ensures OnDiskPart(Next(fs, Mount).gstate) == OnDiskPart(Total(fs.linked, fs.stored))
  {
    hide OnDiskPart, Mounted;
    TotalIsPart(fs.linked, fs.stored);
    MountedPart(Total(fs.linked, fs.stored));
  }
}
