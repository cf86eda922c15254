/**
 * The caches in front of the block device. A read sees the device overlaid by the program cache, whatever the read
 * cache holds; a stream of programs followed by a sync leaves the device as if it had been programmed directly.
 */
module Cache {
  import opened Arith
  import opened Words
  import opened Commit

  const BLANK_BYTE: Byte := Byte(0xff)

  // ---- Multiples ----

  predicate Aligned(a: nat, unit: nat)
    requires unit > 0
  {
    a % unit == 0
  }

  lemma AlignedDifference(a: nat, b: nat, unit: nat)
    requires unit > 0 && b <= a && Aligned(a, unit) && Aligned(b, unit)
    ensures Aligned(a - b, unit)
  {
    var i, j := a / unit, b / unit;
    assert a == unit * i && b == unit * j;
    assert a - b == unit * (i - j);
    Remainder(a - b, unit, i - j, 0);
  }

  lemma AlignedAtLeast(a: nat, unit: nat)
    requires unit > 0 && a > 0 && Aligned(a, unit)
    ensures a >= unit
  {
    if a < unit {
      DivisionIsUnique(a, unit, 0, a);
    }
  }

  lemma AlignedFiner(a: nat, coarse: nat, fine: nat)
    requires fine > 0 && coarse > 0 && Aligned(coarse, fine) && Aligned(a, coarse)
    ensures Aligned(a, fine)
  {
    var i, j := a / coarse, coarse / fine;
    assert a == coarse * i && coarse == fine * j;
    assert a == fine * (j * i) by { assert fine * (j * i) == (fine * j) * i; }
    DivisionIsUnique(a, fine, j * i, 0);
  }

  lemma AlignDownPositive(a: nat, unit: nat)
    requires unit > 0 && a >= unit
    ensures AlignDown(a, unit) >= unit
  {
    AlignedAtLeast(AlignDown(a, unit), unit);
  }

  /** No multiple of a unit lies strictly between a number and the number aligned up. */
  lemma AlignUpIsLeast(a: nat, b: nat, unit: nat)
    requires unit > 0 && a <= b && Aligned(b, unit)
    ensures AlignUp(a, unit) <= b
  {
    var u := AlignUp(a, unit);
    if u > b {
      AlignedDifference(u, b, unit);
      AlignedAtLeast(u - b, unit);
    }
  }

  lemma AlignUpOfAligned(a: nat, unit: nat)
    requires unit > 0 && Aligned(a, unit)
    ensures AlignUp(a, unit) == a && AlignDown(a, unit) == a
  {
    AlignUpIsLeast(a, a, unit);
  }

  // ---- The device and the caches ----

  /** The block device of the configuration. It serves aligned requests inside a block, and programs no byte twice. */
  class Device {
    const count: nat
    const blockSize: nat
    const readSize: nat
    const progSize: nat
    const cacheSize: nat
    var blocks: seq<seq<Byte>>
    /** For each block, the place from which on nothing has been programmed since it was erased. */
    ghost var clean: seq<nat>

    /** What lfs_init checks, and what it does not: that the read size divides the program size. */
    predicate Fit() {
      && readSize > 0 && progSize > 0 && cacheSize > 0 && 0 < blockSize < 0x1_0000_0000 && count < NULL
      && Aligned(cacheSize, readSize) && Aligned(cacheSize, progSize) && Aligned(blockSize, cacheSize)
      && Aligned(progSize, readSize)
    }

    ghost predicate Valid()
      reads this
    {
      Fit() && |blocks| == |clean| == count && forall b | 0 <= b < count :: |blocks[b]| == blockSize
    }

    method Read(block: nat, off: nat, size: nat) returns (data: seq<Byte>)
      requires Valid() && block < count && off + size <= blockSize && Aligned(off, readSize) && Aligned(size, readSize)
      ensures data == blocks[block][off..off + size]
    {
      data := blocks[block][off..off + size];
    }

    method Prog(block: nat, off: nat, data: seq<Byte>)
      requires Valid() && block < count && off + |data| <= blockSize && Aligned(off, progSize)
      requires Aligned(|data|, progSize)
      requires clean[block] <= off
      modifies this
      ensures Valid() && blocks == old(blocks)[block := Put(old(blocks)[block], off, data)]
      ensures clean == old(clean)[block := off + |data|]
    {
      blocks := blocks[block := Put(blocks[block], off, data)];
      clean := clean[block := off + |data|];
    }

    method Erase(block: nat, blank: seq<Byte>)
      requires Valid() && block < count && |blank| == blockSize
      modifies this
      ensures Valid() && blocks == old(blocks)[block := blank] && clean == old(clean)[block := 0]
    {
      blocks := blocks[block := blank];
      clean := clean[block := 0];
    }
  }

  /** lfs_cache_t. */
  class CacheBuffer {
    var block: nat
    var off: nat
    var size: nat
    const buffer: array<Byte>

    constructor (cacheSize: nat)
      ensures block == NULL && size == 0 && off == 0 && buffer.Length == cacheSize && fresh(buffer)
    {
      block, off, size := NULL, 0, 0;
      buffer := new Byte[cacheSize](_ => BLANK_BYTE);
    }

    ghost predicate Valid(dev: Device)
      reads this, buffer, dev
    {
      dev.Valid() && buffer.Length == dev.cacheSize && size <= buffer.Length
        && (block != NULL ==> off + size <= dev.blockSize)
    }

    /** The bytes held are those of the device. */
    ghost predicate Agrees(dev: Device)
      reads this, buffer, dev
    {
      && Valid(dev)
      && (block != NULL ==>
            block < dev.count && Aligned(off, dev.readSize) && buffer[..size] == dev.blocks[block][off..off + size])
    }

    /** Is a byte of the device held? */
    predicate Has(b: nat, o: nat)
      reads this
    {
      block == b && off <= o < off + size
    }

    /** lfs_cache_drop. */
    method Drop()
      modifies `block
      ensures block == NULL
    {
      block := NULL;
    }

    /** lfs_cache_zero. */
    method Zero()
      modifies `block, buffer
      ensures block == NULL && forall k | 0 <= k < buffer.Length :: buffer[k] == BLANK_BYTE
    {
      forall k | 0 <= k < buffer.Length {
        buffer[k] := BLANK_BYTE;
      }
      block := NULL;
    }
  }

  /** Some bytes over a block. */
  function Over(content: seq<Byte>, at: nat, bytes: seq<Byte>): (r: seq<Byte>)
    ensures |r| == |content|
  {
    if at + |bytes| <= |content| then Put(content, at, bytes) else content
  }

  /** The simple view of a block: the device, overlaid by the program cache if there is one. */
  function Seen(dev: Device, pcache: CacheBuffer?, block: nat): (r: seq<Byte>)
    reads dev, pcache, if pcache == null then {} else {pcache.buffer}
    requires block < |dev.blocks| && (pcache != null ==> pcache.size <= pcache.buffer.Length)
    ensures |r| == |dev.blocks[block]|
  {
    if pcache != null && pcache.block == block then Over(dev.blocks[block], pcache.off, pcache.buffer[..pcache.size])
    else dev.blocks[block]
  }

  lemma OverInside(content: seq<Byte>, at: nat, bytes: seq<Byte>, a: nat, b: nat)
    requires at <= a <= b <= at + |bytes| <= |content|
    ensures Over(content, at, bytes)[a..b] == bytes[a - at..b - at]
  {
    assert Put(content, at, bytes)[a..b] == Put(content, at, bytes)[at..at + |bytes|][a - at..b - at];
  }

  lemma OverOutside(content: seq<Byte>, at: nat, bytes: seq<Byte>, a: nat, b: nat)
    requires a <= b <= |content| && (b <= at || a >= at + |bytes|)
    ensures Over(content, at, bytes)[a..b] == content[a..b]
  {
    if at + |bytes| <= |content| {
      var p := Put(content, at, bytes);
      if b <= at {
        assert p[a..b] == p[..at][a..b] == content[..at][a..b];
      } else {
        var e := at + |bytes|;
        assert p[a..b] == p[e..][a - e..b - e] == content[e..][a - e..b - e];
      }
    }
  }

  // ---- Reading ----

  /** The part of a block that a cache holds. */
  datatype Held = Held(block: nat, off: nat, size: nat) {
    predicate Has(b: nat, at: nat) { block == b && off <= at < off + size }

    /** How far one may go before it begins. */
    function Room(b: nat, at: nat, n: nat): (r: nat)
      requires !Has(b, at)
      ensures r <= n && (n > 0 ==> r > 0)
    {
      if block == b && at < off + size then Min(n, off - at) else n
    }
  }

  function HeldBy(cache: CacheBuffer): Held
    reads cache
  {
    Held(cache.block, cache.off, cache.size)
  }

  /** Where the loop of lfs_bd_read stands: what is still to be read, and what the read cache holds. */
  datatype Reading = Reading(off: nat, size: nat, held: Held) {
    function On(n: nat): Reading
      requires n <= size
    {
      Reading(off + n, size - n, held)
    }
  }

  /** What one turn of the loop does: bytes of either cache or of the device, or the read cache is filled. */
  function Turn(read: nat, cacheSize: nat, blockSize: nat, hint: nat, block: nat, program: Option<Held>,
                s: Reading): Reading
    requires read > 0 && s.off < blockSize
  {
    if program.Some? && program.value.Has(block, s.off) then
      s.On(Min(s.size, program.value.size - (s.off - program.value.off)))
    else
      var clear := if program.Some? then program.value.Room(block, s.off, s.size) else s.size;
      if s.held.Has(block, s.off) then s.On(Min(clear, s.held.size - (s.off - s.held.off)))
      else if s.size >= hint && Aligned(s.off, read) && s.size >= read then
        s.On(AlignDown(s.held.Room(block, s.off, clear), read))
      else s.(held := Filled(read, cacheSize, blockSize, hint, block, s.off))
  }

  /** The part of a block that the read cache is filled with. */
  function Filled(read: nat, cacheSize: nat, blockSize: nat, hint: nat, block: nat, off: nat): Held
    requires read > 0 && off < blockSize
  {
    var start := AlignDown(off, read);
    Held(block, start, Min(Min(AlignUp(off + hint, read), blockSize) - start, cacheSize))
  }

  /** How far one turn of lfs_bd_read may go before the program cache begins. */
  function Room(off: nat, size: nat, cache: CacheBuffer?, block: nat): (r: nat)
    reads cache
    requires size > 0 && (cache != null ==> !cache.Has(block, off))
    ensures 0 < r <= size
  {
    if cache != null && cache.block == block && off < cache.off + cache.size then Min(size, cache.off - off) else size
  }

  /** A part of a block as the read cache loads it. */
  method Load(dev: Device, rcache: CacheBuffer, hint: nat, block: nat, off: nat)
    requires rcache.Valid(dev) && block < dev.count && off < dev.blockSize && hint >= 1
    modifies rcache, rcache.buffer
    ensures rcache.Agrees(dev) && rcache.Has(block, off)
    ensures HeldBy(rcache) == Filled(dev.readSize, dev.cacheSize, dev.blockSize, hint, block, off)
  {
    LoadFits(dev.blockSize, dev.readSize, dev.cacheSize, off, hint);
    var start := AlignDown(off, dev.readSize);
    rcache.block := block;
    rcache.off := start;
    rcache.size := Min(Min(AlignUp(off + hint, dev.readSize), dev.blockSize) - start, dev.cacheSize);
    var data := dev.Read(block, start, rcache.size);
    forall k | 0 <= k < |data| {
      rcache.buffer[k] := data[k];
    }
    assert rcache.buffer[..rcache.size] == data;
  }

  /** What is loaded is aligned, inside the block and the cache, and holds the byte asked for. */
  lemma LoadFits(blockSize: nat, readSize: nat, cacheSize: nat, off: nat, hint: nat)
    requires readSize > 0 && cacheSize > 0 && off < blockSize && hint >= 1
    requires Aligned(cacheSize, readSize) && Aligned(blockSize, cacheSize)
    ensures var start := AlignDown(off, readSize);
            var up := AlignUp(off + hint, readSize);
            var size := Min(Min(up, blockSize) - start, cacheSize);
            && start <= off && start <= Min(up, blockSize) && start + size <= blockSize
            && off < start + size && Aligned(start, readSize) && Aligned(size, readSize)
  {
    var start, up := AlignDown(off, readSize), AlignUp(off + hint, readSize);
    AlignedFiner(blockSize, cacheSize, readSize);
    AlignedDifference(up, start, readSize);
    AlignedDifference(blockSize, start, readSize);
    AlignedAtLeast(cacheSize, readSize);
  }

  lemma SubSlice(a: seq<Byte>, b: seq<Byte>, off: nat, far: nat, near: nat)
    requires near <= far && off + far <= |a| && off + far <= |b| && a[off..off + far] == b[off..off + far]
    ensures a[off..off + near] == b[off..off + near]
  {
    assert a[off..off + near] == a[off..off + far][..near] && b[off..off + near] == b[off..off + far][..near];
  }

  /** Before the program cache begins, the view is the device. */
  lemma SeenIsDevice(dev: Device, pcache: CacheBuffer?, block: nat, off: nat, size: nat)
    requires dev.Valid() && block < dev.count && size > 0 && off + size <= dev.blockSize
    requires pcache != null ==> pcache.Valid(dev) && !pcache.Has(block, off)
    ensures var n := Room(off, size, pcache, block);
            Seen(dev, pcache, block)[off..off + n] == dev.blocks[block][off..off + n]
  {
    hide Over;
    if pcache != null && pcache.block == block {
      OverOutside(dev.blocks[block], pcache.off, pcache.buffer[..pcache.size], off,
                  off + Room(off, size, pcache, block));
    }
  }

  /** Where the program cache holds bytes, they are the view. */
  lemma SeenIsCached(dev: Device, pcache: CacheBuffer, block: nat, off: nat, n: nat)
    requires dev.Valid() && block < dev.count && pcache.Valid(dev) && pcache.block == block
    requires pcache.off <= off && off + n <= pcache.off + pcache.size && block != NULL
    ensures Seen(dev, pcache, block)[off..off + n] ==
            pcache.buffer[..pcache.size][off - pcache.off..off - pcache.off + n]
  {
    hide Over;
    OverInside(dev.blocks[block], pcache.off, pcache.buffer[..pcache.size], off, off + n);
  }

  lemma SliceJoin(s: seq<Byte>, a: nat, b: nat, c: nat)
    requires a <= b <= c <= |s|
    ensures s[a..c] == s[a..b] + s[b..c]
  {
  }

  /** Bytes out of a cache. */
  method TakeFrom(cache: CacheBuffer, off: nat, size: nat) returns (chunk: seq<Byte>)
    requires cache.size <= cache.buffer.Length && cache.off <= off < cache.off + cache.size && size > 0
    ensures 0 < |chunk| == Min(size, cache.size - (off - cache.off)) && off - cache.off + |chunk| <= cache.size
    ensures chunk == cache.buffer[..cache.size][off - cache.off..off - cache.off + |chunk|]
  {
    var diff := Min(size, cache.size - (off - cache.off));
    chunk := cache.buffer[off - cache.off..off - cache.off + diff];
  }

  /** The bytes of a cache that agrees with the device. */
  lemma HeldBytes(dev: Device, cache: CacheBuffer, block: nat, off: nat, n: nat)
    requires cache.Agrees(dev) && block < dev.count && cache.block == block && cache.off <= off
    requires off + n <= cache.off + cache.size
    ensures dev.blocks[block][off..off + n] == cache.buffer[..cache.size][off - cache.off..off - cache.off + n]
  {
    var c := dev.blocks[block];
    assert c[off..off + n] == c[cache.off..cache.off + cache.size][off - cache.off..off - cache.off + n];
  }

  lemma AgreeingIsValid(dev: Device, cache: CacheBuffer)
    requires cache.Agrees(dev)
    ensures cache.Valid(dev) && dev.Valid()
  {
  }

  /** How far a turn may go before the program cache begins. */
  function Clear(block: nat, program: Option<Held>, s: Reading): nat
    requires program.Some? ==> !program.value.Has(block, s.off)
  {
    if program.Some? then program.value.Room(block, s.off, s.size) else s.size
  }

  lemma TurnFromProgram(read: nat, cs: nat, bs: nat, hint: nat, block: nat, program: Held, s: Reading)
    requires read > 0 && s.off < bs && program.Has(block, s.off)
    ensures Turn(read, cs, bs, hint, block, Some(program), s) == s.On(Min(s.size, program.size - (s.off - program.off)))
  {
  }

  lemma TurnBehind(read: nat, cs: nat, bs: nat, hint: nat, block: nat, program: Option<Held>, s: Reading)
    requires read > 0 && s.off < bs && (program.Some? ==> !program.value.Has(block, s.off))
    ensures Turn(read, cs, bs, hint, block, program, s) ==
            if s.held.Has(block, s.off) then s.On(Min(Clear(block, program, s), s.held.size - (s.off - s.held.off)))
            else if s.size >= hint && Aligned(s.off, read) && s.size >= read then
              s.On(AlignDown(s.held.Room(block, s.off, Clear(block, program, s)), read))
            else s.(held := Filled(read, cs, bs, hint, block, s.off))
  {
    hide AlignDown, AlignUp, Filled;
  }

  lemma RoomIsHeld(off: nat, size: nat, cache: CacheBuffer, block: nat)
    requires size > 0
    ensures cache.Has(block, off) <==> HeldBy(cache).Has(block, off)
    ensures !cache.Has(block, off) ==> Room(off, size, cache, block) == HeldBy(cache).Room(block, off, size)
  {
  }

  /** One turn of the loop of lfs_bd_read: some bytes, or none if it filled the read cache. */
  method ReadSome(dev: Device, pcache: CacheBuffer?, rcache: CacheBuffer, hint: nat, block: nat, off: nat, size: nat)
    returns (chunk: seq<Byte>)
    requires rcache.Agrees(dev) && block < dev.count && size > 0 && off + size <= dev.blockSize && hint >= 1
    requires pcache != null ==> pcache != rcache && pcache.buffer != rcache.buffer && pcache.Valid(dev)
    requires pcache != null && pcache.block == block ==> Aligned(pcache.off, dev.progSize)
    modifies rcache, rcache.buffer
    ensures rcache.Agrees(dev) && |chunk| <= size && chunk == Seen(dev, pcache, block)[off..off + |chunk|]
    ensures chunk == [] ==> !old(rcache.Has(block, off)) && rcache.Has(block, off)
    ensures Reading(off, size, HeldBy(rcache)).On(|chunk|) ==
            Turn(dev.readSize, dev.cacheSize, dev.blockSize, hint, block,
                 if pcache == null then None else Some(HeldBy(pcache)), Reading(off, size, old(HeldBy(rcache))))
  {
    hide Seen, Aligned, AlignDown, AlignUp, Room, CacheBuffer.Agrees, Turn, Filled, Held.Has, Held.Room;
    AgreeingIsValid(dev, rcache);
    if pcache != null {
      RoomIsHeld(off, size, pcache, block);
      if pcache.Has(block, off) {
        chunk := TakeFrom(pcache, off, size);
        SeenIsCached(dev, pcache, block, off, |chunk|);
        TurnFromProgram(dev.readSize, dev.cacheSize, dev.blockSize, hint, block, HeldBy(pcache),
                        Reading(off, size, HeldBy(rcache)));
        return;
      }
    }
    ghost var clear := Room(off, size, pcache, block);
    SeenIsDevice(dev, pcache, block, off, size);
    chunk := ReadBehind(dev, pcache, rcache, hint, block, off, size);
    SubSlice(Seen(dev, pcache, block), dev.blocks[block], off, clear, |chunk|);
  }

  /**
   * A turn where the program cache holds nothing: the read cache, the device directly, or a filling of the read cache.
   */
  method ReadBehind(dev: Device, pcache: CacheBuffer?, rcache: CacheBuffer, hint: nat, block: nat, off: nat, size: nat)
    returns (chunk: seq<Byte>)
    requires rcache.Agrees(dev) && block < dev.count && size > 0 && off + size <= dev.blockSize && hint >= 1
    requires pcache != null ==> pcache != rcache && pcache.buffer != rcache.buffer && pcache.Valid(dev)
    requires pcache != null ==> !pcache.Has(block, off)
    requires pcache != null && pcache.block == block ==> Aligned(pcache.off, dev.progSize)
    modifies rcache, rcache.buffer
    ensures rcache.Agrees(dev) && |chunk| <= Room(off, size, pcache, block)
    ensures chunk == dev.blocks[block][off..off + |chunk|]
    ensures chunk == [] ==> !old(rcache.Has(block, off)) && rcache.Has(block, off)
    ensures Reading(off, size, HeldBy(rcache)).On(|chunk|) ==
            Turn(dev.readSize, dev.cacheSize, dev.blockSize, hint, block,
                 if pcache == null then None else Some(HeldBy(pcache)), Reading(off, size, old(HeldBy(rcache))))
  {
    hide Seen, Aligned, AlignDown, AlignUp, Room, CacheBuffer.Agrees, Turn, Filled, Held.Has, Held.Room, Clear;
    var clear := Room(off, size, pcache, block);
    AgreeingIsValid(dev, rcache);
    RoomIsHeld(off, clear, rcache, block);
    if pcache != null {
      RoomIsHeld(off, size, pcache, block);
    }
    RoomIsClear(off, size, pcache, block, HeldBy(rcache));
    TurnBehind(dev.readSize, dev.cacheSize, dev.blockSize, hint, block,
               if pcache == null then None else Some(HeldBy(pcache)), Reading(off, size, HeldBy(rcache)));
    if rcache.Has(block, off) {
      chunk := TakeFrom(rcache, off, clear);
      HeldBytes(dev, rcache, block, off, |chunk|);
      return;
    }
    if size >= hint && Aligned(off, dev.readSize) && size >= dev.readSize {
      var diff := Room(off, clear, rcache, block);
      BypassRoom(dev, pcache, rcache, block, off, size, clear, diff);
      chunk := Bypass(dev, block, off, diff);
      return;
    }
    Load(dev, rcache, hint, block, off);
    return [];
  }

  lemma RoomIsClear(off: nat, size: nat, cache: CacheBuffer?, block: nat, held: Held)
    requires size > 0 && (cache != null ==> !cache.Has(block, off))
    ensures Room(off, size, cache, block) ==
            Clear(block, if cache == null then None else Some(HeldBy(cache)), Reading(off, size, held))
  {
  }

  /** A read straight from the device, of whole units. */
  method Bypass(dev: Device, block: nat, off: nat, diff: nat) returns (chunk: seq<Byte>)
    requires dev.Valid() && block < dev.count && off + diff <= dev.blockSize && Aligned(off, dev.readSize)
    requires AlignDown(diff, dev.readSize) >= dev.readSize
    ensures 0 < |chunk| == AlignDown(diff, dev.readSize) <= diff && chunk == dev.blocks[block][off..off + |chunk|]
  {
    chunk := dev.Read(block, off, AlignDown(diff, dev.readSize));
  }

  /** An aligned read that bypasses the caches has room for at least one unit: both caches begin at unit boundaries. */
  lemma BypassRoom(dev: Device, pcache: CacheBuffer?, rcache: CacheBuffer, block: nat, off: nat, size: nat, clear: nat,
                   diff: nat)
    requires rcache.Agrees(dev) && block < dev.count && size >= dev.readSize && Aligned(off, dev.readSize)
    requires pcache != null ==> !pcache.Has(block, off) && pcache.Valid(dev)
    requires pcache != null && pcache.block == block ==> Aligned(pcache.off, dev.progSize)
    requires !rcache.Has(block, off) && clear == Room(off, size, pcache, block)
    requires diff == Room(off, clear, rcache, block)
    ensures AlignDown(diff, dev.readSize) >= dev.readSize
  {
    if pcache != null && pcache.block == block && off < pcache.off + pcache.size {
      AlignedFiner(pcache.off, dev.progSize, dev.readSize);
      AlignedDifference(pcache.off, off, dev.readSize);
      AlignedAtLeast(pcache.off - off, dev.readSize);
    }
    if rcache.block == block && off < rcache.off + rcache.size {
      AlignedDifference(rcache.off, off, dev.readSize);
      AlignedAtLeast(rcache.off - off, dev.readSize);
    }
    AlignDownPositive(diff, dev.readSize);
  }

  /**
   * lfs_bd_read: None is LFS_ERR_CORRUPT, for a request outside the device. Otherwise the bytes of the simple view; the
   * read cache still agrees with the device.
   */
  method BdRead(dev: Device, pcache: CacheBuffer?, rcache: CacheBuffer, hint: nat, block: nat, off0: nat, size0: nat)
    returns (data: Option<seq<Byte>>)
    requires rcache.Agrees(dev) && (hint >= 1 || size0 == 0) && off0 + size0 < 0x1_0000_0000
    requires pcache != null ==> pcache != rcache && pcache.buffer != rcache.buffer && pcache.Valid(dev)
    requires pcache != null && pcache.block == block ==> Aligned(pcache.off, dev.progSize)
    modifies rcache, rcache.buffer
    ensures rcache.Agrees(dev)
    ensures data == if block >= dev.count || off0 + size0 > dev.blockSize then None
                    else Some(Seen(dev, pcache, block)[off0..off0 + size0])
    ensures data.Some? ==>
              && block < |dev.blocks| && off0 + size0 <= |dev.blocks[block]| && |data.value| == size0
              && forall i | 0 <= i < size0 ::
                   data.value[i] ==
                   if pcache != null && pcache.block == block && pcache.off <= off0 + i < pcache.off + pcache.size
                   then pcache.buffer[off0 + i - pcache.off] else dev.blocks[block][off0 + i]
  {
    hide Over, Aligned, Seen;
    if block >= dev.count || (off0 + size0) % 0x1_0000_0000 > dev.blockSize {
      return None;
    }
    ghost var view := Seen(dev, pcache, block);
    assert |view| == dev.blockSize;
    var off: nat, size: nat := off0, size0;
    var bytes := [];
    while size > 0
      invariant rcache.Agrees(dev) && off + size == off0 + size0 && off0 <= off && (hint >= 1 || size == 0)
      invariant bytes == view[off0..off] && view == Seen(dev, pcache, block)
      decreases size, if rcache.Has(block, off) then 0 else 1
    {
      var chunk := ReadSome(dev, pcache, rcache, hint, block, off, size);
      SliceJoin(view, off0, off, off + |chunk|);
      bytes := bytes + chunk;
      off := off + |chunk|;
      size := size - |chunk|;
    }
    SeenBytes(dev, pcache, block);
    return Some(bytes);
  }

  /** Byte by byte, what is seen is the program cache where it holds the block, and the device elsewhere. */
  lemma SeenBytes(dev: Device, pcache: CacheBuffer?, block: nat)
    requires block < |dev.blocks|
    requires pcache != null ==> pcache.size <= pcache.buffer.Length
    requires pcache != null && pcache.block == block ==> pcache.off + pcache.size <= |dev.blocks[block]|
    ensures forall k | 0 <= k < |dev.blocks[block]| ::
              Seen(dev, pcache, block)[k] ==
              if pcache != null && pcache.block == block && pcache.off <= k < pcache.off + pcache.size
              then pcache.buffer[k - pcache.off] else dev.blocks[block][k]
  {
    var view, content := Seen(dev, pcache, block), dev.blocks[block];
    if pcache != null && pcache.block == block {
      var held := pcache.buffer[..pcache.size];
      var at, stop := pcache.off, pcache.off + |held|;
      assert view == Put(content, at, held);
      forall i | 0 <= i < |view|
        ensures view[i] == if at <= i < stop then held[i - at] else content[i]
      {
        if i < at {
          assert view[i] == view[..at][i] == content[..at][i];
        } else if i < stop {
          assert view[i] == view[at..stop][i - at];
        } else {
          assert view[i] == view[stop..][i - stop] == content[stop..][i - stop];
        }
      }
    }
  }

  /** What lfs_init checks of the sizes, the program size among them. */
  predicate SizesOk(read: nat, prog: nat, cacheSize: nat, blockSize: nat) {
    && read > 0 && prog > 0 && cacheSize > 0 && blockSize > 0
    && Aligned(cacheSize, read) && Aligned(cacheSize, prog) && Aligned(blockSize, cacheSize)
  }

  /** The loop of lfs_bd_read may stand here: inside the block, with both caches at unit boundaries. */
  predicate MayStand(read: nat, prog: nat, blockSize: nat, hint: nat, program: Option<Held>, s: Reading)
    requires read > 0 && prog > 0
  {
    && hint >= 1 && s.size > 0 && s.off + s.size <= blockSize && Aligned(s.held.off, read)
    && (program.Some? ==> Aligned(program.value.off, prog) && program.value.off + program.value.size <= blockSize)
  }

  /** A turn that changes nothing: no byte is read and no cache is filled. */
  predicate Stuck(read: nat, cacheSize: nat, blockSize: nat, hint: nat, block: nat, program: Option<Held>, s: Reading)
    requires read > 0 && s.off < blockSize
  {
    Turn(read, cacheSize, blockSize, hint, block, program, s) == s
  }

  /** The loop after a number of turns. */
  function Turns(n: nat, read: nat, cacheSize: nat, blockSize: nat, hint: nat, block: nat, program: Option<Held>,
                 s: Reading)
    : Reading
    requires read > 0
  {
    if n == 0 || s.size == 0 || s.off >= blockSize then s
    else Turns(n - 1, read, cacheSize, blockSize, hint, block, program,
               Turn(read, cacheSize, blockSize, hint, block, program, s))
  }

  /** A loop that is stuck stays so for ever. */
  lemma {:induction false} StuckForEver(n: nat, read: nat, cacheSize: nat, blockSize: nat, hint: nat, block: nat,
                                        program: Option<Held>, s: Reading)
    requires read > 0 && s.off < blockSize && Stuck(read, cacheSize, blockSize, hint, block, program, s)
    ensures Turns(n, read, cacheSize, blockSize, hint, block, program, s) == s
  {
    hide Turn;
    if n > 0 {
      StuckForEver(n - 1, read, cacheSize, blockSize, hint, block, program, s);
    }
  }

  lemma AlignDownAligned(a: nat, unit: nat)
    requires unit > 0
    ensures Aligned(AlignDown(a, unit), unit) && (a < unit ==> AlignDown(a, unit) == 0)
  {
    if a < unit {
      DivisionIsUnique(a, unit, 0, a);
    }
  }

  /** If the read size divides the program size, every turn reads something or fills the read cache with it. */
  lemma NeverStuck(read: nat, prog: nat, cacheSize: nat, blockSize: nat, hint: nat, block: nat, program: Option<Held>,
                   s: Reading)
    requires SizesOk(read, prog, cacheSize, blockSize) && Aligned(prog, read)
    requires MayStand(read, prog, blockSize, hint, program, s)
    ensures !Stuck(read, cacheSize, blockSize, hint, block, program, s)
  {
    hide Aligned, AlignDown, AlignUp;
    LoadFits(blockSize, read, cacheSize, s.off, hint);
    if Aligned(s.off, read) && s.size >= read {
      if program.Some? && !program.value.Has(block, s.off) && s.off < program.value.off {
        AlignedFiner(program.value.off, prog, read);
        AlignedDifference(program.value.off, s.off, read);
        AlignedAtLeast(program.value.off - s.off, read);
      }
      if s.off < s.held.off {
        AlignedDifference(s.held.off, s.off, read);
        AlignedAtLeast(s.held.off - s.off, read);
      }
      forall n: nat | n >= read ensures AlignDown(n, read) >= read {
        AlignDownPositive(n, read);
      }
    }
  }

  /** The cache is large enough for a unit behind the last one that begins before a program unit. */
  lemma RoomBehind(read: nat, prog: nat, cacheSize: nat)
    requires read > 0 && prog > 0 && cacheSize > 0 && Aligned(cacheSize, read) && Aligned(cacheSize, prog)
    requires !Aligned(prog, read)
    ensures AlignDown(prog, read) + read <= cacheSize && prog < cacheSize
  {
    AlignedAtLeast(cacheSize, read);
    AlignedAtLeast(cacheSize, prog);
    AlignDownAligned(prog, read);
    AlignedDifference(cacheSize, AlignDown(prog, read), read);
    AlignedAtLeast(cacheSize - AlignDown(prog, read), read);
  }

  /** Where the loop is stuck otherwise: a read of one unit that runs into the program cache before a unit is over. */
  lemma StuckSomewhere(read: nat, prog: nat, cacheSize: nat, blockSize: nat)
    requires SizesOk(read, prog, cacheSize, blockSize) && !Aligned(prog, read)
    ensures var program, s := Some(Held(0, prog, 1)), Reading(AlignDown(prog, read), read, Held(1, 0, 0));
            MayStand(read, prog, blockSize, 1, program, s) && Stuck(read, cacheSize, blockSize, 1, 0, program, s)
  {
    RoomBehind(read, prog, cacheSize);
    AlignedAtLeast(blockSize, cacheSize);
    var off := AlignDown(prog, read);
    AlignDownAligned(prog, read);
    AlignDownAligned(prog - off, read);
    DivisionIsUnique(prog, prog, 1, 0);
    DivisionIsUnique(0, read, 0, 0);
  }

  /**
   * Of the sizes that lfs_init lets through, the loop of lfs_bd_read always ends exactly if the read size divides the
   * program size.
   */
  lemma ProgressExactly(read: nat, prog: nat, cacheSize: nat, blockSize: nat)
    requires SizesOk(read, prog, cacheSize, blockSize)
    ensures (forall hint: nat, block: nat, program: Option<Held>, s: Reading
               | MayStand(read, prog, blockSize, hint, program, s) ::
               !Stuck(read, cacheSize, blockSize, hint, block, program, s))
            <==> Aligned(prog, read)
  {
    hide Aligned, AlignDown, Turn, Stuck, MayStand, Filled;
    if Aligned(prog, read) {
      forall hint: nat, block: nat, program: Option<Held>, s: Reading
        | MayStand(read, prog, blockSize, hint, program, s)
        ensures s.off < blockSize && !Stuck(read, cacheSize, blockSize, hint, block, program, s)
      {
        StandsInside(read, prog, blockSize, hint, program, s);
        NeverStuck(read, prog, cacheSize, blockSize, hint, block, program, s);
      }
    } else {
      StuckSomewhere(read, prog, cacheSize, blockSize);
    }
  }

  lemma StandsInside(read: nat, prog: nat, blockSize: nat, hint: nat, program: Option<Held>, s: Reading)
    requires read > 0 && prog > 0 && MayStand(read, prog, blockSize, hint, program, s)
    ensures s.off < blockSize
  {
  }

  // ---- Comparing ----

  datatype Cmp = Equal | Less | Greater

  /** memcmp: the first bytes that differ decide. */
  function Compare(a: seq<Byte>, b: seq<Byte>): Cmp
    requires |a| == |b|
  {
    if a == [] then Equal
    else if a[0].bits < b[0].bits then Less
    else if a[0].bits > b[0].bits then Greater
    else Compare(a[1..], b[1..])
  }

  lemma {:induction false} CompareConcat(a: seq<Byte>, b: seq<Byte>, c: seq<Byte>, d: seq<Byte>)
    requires |a| == |b| && |c| == |d|
    ensures Compare(a + c, b + d) == if Compare(a, b) == Equal then Compare(c, d) else Compare(a, b)
  {
    if a == [] {
      assert a + c == c && b + d == d;
    } else {
      assert (a + c)[1..] == a[1..] + c && (b + d)[1..] == b[1..] + d;
      CompareConcat(a[1..], b[1..], c, d);
    }
  }

  lemma {:induction false} CompareEqual(a: seq<Byte>, b: seq<Byte>)
    requires |a| == |b|
    ensures Compare(a, b) == Equal <==> a == b
  {
    if a != [] {
      CompareEqual(a[1..], b[1..]);
      assert a == [a[0]] + a[1..] && b == [b[0]] + b[1..];
    }
  }

  /** Without a program cache the view is the device. */
  lemma SeenDirectly(dev: Device, block: nat)
    requires block < |dev.blocks|
    ensures Seen(dev, null, block) == dev.blocks[block]
  {
  }

  lemma SliceOfSlice(s: seq<Byte>, off: nat, n: nat, i: nat, k: nat)
    requires off + n <= |s| && i + k <= n
    ensures s[off..off + n][i..i + k] == s[off + i..off + i + k]
  {
    var a, b := s[off..off + n][i..i + k], s[off + i..off + i + k];
    forall j | 0 <= j < k ensures a[j] == b[j] {
      assert s[off..off + n][i + j] == s[off + i + j];
    }
  }

  lemma SplitAt(s: seq<Byte>, i: nat, k: nat)
    requires i + k <= |s|
    ensures s[i..] == s[i..i + k] + s[i + k..]
  {
  }

  /** lfs_bd_cmp without a program cache: compares a range of the device with some bytes, eight at a time. */
  method BdCmp(dev: Device, rcache: CacheBuffer, hint: nat, block: nat, off: nat, data: seq<Byte>) returns (r: Cmp)
    requires rcache.Agrees(dev) && hint >= |data| && block < dev.count && off + |data| <= dev.blockSize
    modifies rcache, rcache.buffer
    ensures rcache.Agrees(dev) && r == Compare(dev.blocks[block][off..off + |data|], data)
  {
    hide Compare, Aligned, Seen;
    var i: nat := 0;
    ghost var all := dev.blocks[block][off..off + |data|];
    assert all[0..] == all && data[0..] == data;
    while i < |data|
      invariant i <= |data| && rcache.Agrees(dev) && Compare(all, data) == Compare(all[i..], data[i..])
    {
      var diff := Min(|data| - i, 8);
      var dat := BdRead(dev, null, rcache, hint - i, block, off + i, diff);
      SeenDirectly(dev, block);
      SliceOfSlice(dev.blocks[block], off, |data|, i, diff);
      SplitAt(all, i, diff);
      SplitAt(data, i, diff);
      CompareConcat(all[i..i + diff], data[i..i + diff], all[i + diff..], data[i + diff..]);
      var res := Compare(dat.value, data[i..i + diff]);
      if res != Equal {
        return res;
      }
      i := i + diff;
    }
    CompareNothing();
    return Equal;
  }

  lemma CompareNothing()
    ensures Compare([], []) == Equal
  {
  }

  // ---- Programming ----

  ghost predicate Blank(cache: CacheBuffer, from: nat)
    reads cache.buffer
  {
    forall k | from <= k < cache.buffer.Length :: cache.buffer[k] == BLANK_BYTE
  }

  /** A program cache that may be flushed: its range is aligned and not yet programmed. */
  ghost predicate Flushable(dev: Device, pcache: CacheBuffer)
    reads dev, pcache, pcache.buffer
  {
    && pcache.Valid(dev)
    && (pcache.block != NULL ==>
          pcache.block < dev.count && Aligned(pcache.off, dev.progSize) && dev.clean[pcache.block] <= pcache.off)
  }

  lemma FlushFits(dev: Device, pcache: CacheBuffer)
    requires Flushable(dev, pcache) && pcache.block != NULL
    ensures var n := AlignUp(pcache.size, dev.progSize);
            n <= dev.cacheSize && pcache.off + n <= dev.blockSize && Aligned(n, dev.progSize)
  {
    AlignUpIsLeast(pcache.size, dev.cacheSize, dev.progSize);
    AlignedFiner(dev.blockSize, dev.cacheSize, dev.progSize);
    AlignedDifference(dev.blockSize, pcache.off, dev.progSize);
    AlignUpIsLeast(pcache.size, dev.blockSize - pcache.off, dev.progSize);
  }

  predicate Separate(pcache: CacheBuffer, rcache: CacheBuffer) {
    pcache != rcache && pcache.buffer != rcache.buffer
  }

  /** lfs_bd_flush: the cached range reaches the device, up to the end of its last program unit. */
  method BdFlush(dev: Device, pcache: CacheBuffer, rcache: CacheBuffer, validate: bool) returns (ok: bool)
    requires Flushable(dev, pcache) && rcache.Valid(dev) && Separate(pcache, rcache)
    modifies dev, pcache, pcache.buffer, rcache, rcache.buffer
    ensures ok && Flushable(dev, pcache) && pcache.block == NULL && rcache.Valid(dev)
    ensures old(pcache.block) == NULL ==> dev.blocks == old(dev.blocks) && dev.clean == old(dev.clean)
    ensures old(pcache.block) == NULL ==> unchanged(pcache.buffer)
    ensures old(pcache.block) == NULL || !validate ==> unchanged(rcache) && unchanged(rcache.buffer)
    ensures old(pcache.block) != NULL ==>
              var b, o, n := old(pcache.block), old(pcache.off), AlignUp(old(pcache.size), dev.progSize);
              && n <= pcache.buffer.Length && o + n <= dev.blockSize && b < dev.count && Blank(pcache, 0)
              && dev.blocks == old(dev.blocks)[b := Put(old(dev.blocks)[b], o, old(pcache.buffer[..])[..n])]
              && dev.clean == old(dev.clean)[b := o + n]
              && (validate ==> rcache.Agrees(dev))
  {
    hide Aligned;
    if pcache.block == NULL {
      return true;
    }
    FlushFits(dev, pcache);
    var diff := AlignUp(pcache.size, dev.progSize);
    var data := pcache.buffer[..diff];
    dev.Prog(pcache.block, pcache.off, data);
    if validate {
      rcache.Drop();
      var res := BdCmp(dev, rcache, diff, pcache.block, pcache.off, data);
      CompareEqual(dev.blocks[pcache.block][pcache.off..pcache.off + diff], data);
      if res != Equal {
        return false;
      }
    }
    pcache.Zero();
    return true;
  }

  /**
   * In the middle of a stream of programs: w has been programmed from start, of which a part is still in the program
   * cache; base is what the block held before.
   */
  ghost predicate Buffering(dev: Device, pcache: CacheBuffer, block: nat, start: nat, w: seq<Byte>, base: seq<Byte>)
    reads dev, pcache, pcache.buffer
  {
    && Flushable(dev, pcache) && block < dev.count && start + |w| <= dev.blockSize == |base|
    && Blank(pcache, if pcache.block == NULL then 0 else pcache.size)
    && (if pcache.block == NULL then
          && Aligned(start + |w|, dev.progSize) && dev.clean[block] <= start + |w|
          && dev.blocks[block] == Put(base, start, w)
        else
          && pcache.block == block && start <= pcache.off && pcache.off + pcache.size == start + |w|
          && dev.blocks[block] == Put(base, start, w[..pcache.off - start])
          && pcache.buffer[..pcache.size] == w[pcache.off - start..])
  }

  /** Between two calls the program cache is never full. */
  ghost predicate Streaming(dev: Device, pcache: CacheBuffer, block: nat, start: nat, w: seq<Byte>, base: seq<Byte>)
    reads dev, pcache, pcache.buffer
  {
    Buffering(dev, pcache, block, start, w, base) && (pcache.block != NULL ==> pcache.size < dev.cacheSize)
  }

  /** Only one block of a device differs. */
  predicate OnlyBlock(before: seq<seq<Byte>>, after: seq<seq<Byte>>, block: nat) {
    |before| == |after| && forall b | 0 <= b < |after| && b != block :: after[b] == before[b]
  }

  /** The program cache is made ready for the next bytes. */
  method Prepare(dev: Device, pcache: CacheBuffer, block: nat, off: nat, ghost start: nat, ghost w: seq<Byte>,
                 ghost base: seq<Byte>)
    requires Streaming(dev, pcache, block, start, w, base) && pcache.block == NULL && off == start + |w|
    modifies pcache
    ensures Streaming(dev, pcache, block, start, w, base) && pcache.block == block
  {
    hide Aligned, Put;
    AlignUpOfAligned(off, dev.progSize);
    pcache.block := block;
    pcache.off := AlignDown(off, dev.progSize);
    pcache.size := 0;
    assert w[..|w|] == w && w[|w|..] == [] && pcache.buffer[..0] == [];
  }

  /** Bytes are added to the program cache. */
  method Fill(dev: Device, pcache: CacheBuffer, block: nat, chunk: seq<Byte>, ghost start: nat, ghost w: seq<Byte>,
              ghost base: seq<Byte>)
    requires Streaming(dev, pcache, block, start, w, base) && pcache.block == block
    requires pcache.size + |chunk| <= dev.cacheSize && start + |w| + |chunk| <= dev.blockSize
    modifies pcache, pcache.buffer
    ensures Buffering(dev, pcache, block, start, w + chunk, base) && pcache.block == block
    ensures pcache.size == old(pcache.size) + |chunk|
  {
    hide Aligned, Put;
    ghost var held := pcache.buffer[..pcache.size];
    var at := pcache.size;
    forall k | 0 <= k < |chunk| {
      pcache.buffer[at + k] := chunk[k];
    }
    pcache.size := Max(pcache.size, at + |chunk|);
    assert pcache.buffer[..pcache.size] == held + chunk;
    ghost var n := pcache.off - start;
    assert (w + chunk)[..n] == w[..n] && (w + chunk)[n..] == w[n..] + chunk;
  }

  /** A full program cache is flushed; everything so far is on the device. */
  method FlushFull(dev: Device, pcache: CacheBuffer, rcache: CacheBuffer, validate: bool, block: nat,
                   ghost start: nat, ghost w: seq<Byte>, ghost base: seq<Byte>) returns (ok: bool)
    requires Buffering(dev, pcache, block, start, w, base) && pcache.block == block && pcache.size == dev.cacheSize
    requires rcache.Valid(dev) && Separate(pcache, rcache)
    modifies dev, pcache, pcache.buffer, rcache, rcache.buffer
    ensures ok && Streaming(dev, pcache, block, start, w, base) && rcache.Valid(dev)
    ensures OnlyBlock(old(dev.blocks), dev.blocks, block)
  {
    hide Aligned, Put;
    ghost var n, b := pcache.off - start, dev.blocks[block];
    AlignUpOfAligned(dev.cacheSize, dev.progSize);
    assert pcache.buffer[..] == pcache.buffer[..pcache.size] && pcache.buffer[..][..pcache.size] == w[n..];
    PutTwice(base, start, w[..n], w[n..]);
    assert w[..n] + w[n..] == w;
    AlignedSum(pcache.off, dev.cacheSize, dev.progSize);
    ok := BdFlush(dev, pcache, rcache, validate);
  }

  lemma AlignedSum(a: nat, b: nat, unit: nat)
    requires unit > 0 && Aligned(a, unit) && Aligned(b, unit)
    ensures Aligned(a + b, unit)
  {
    var i, j := a / unit, b / unit;
    assert a == unit * i && b == unit * j;
    assert a + b == unit * (i + j);
    DivisionIsUnique(a + b, unit, i + j, 0);
  }

  /** lfs_bd_prog, in a stream: the bytes come behind those before. */
  method BdProg(dev: Device, pcache: CacheBuffer, rcache: CacheBuffer, validate: bool, block: nat, off0: nat,
                data: seq<Byte>, ghost start: nat, ghost w: seq<Byte>, ghost base: seq<Byte>)
    returns (ok: bool)
    requires Streaming(dev, pcache, block, start, w, base) && rcache.Valid(dev) && Separate(pcache, rcache)
    requires off0 == start + |w| && off0 + |data| <= dev.blockSize
    modifies dev, pcache, pcache.buffer, rcache, rcache.buffer
    ensures ok && Streaming(dev, pcache, block, start, w + data, base) && rcache.Valid(dev)
    ensures OnlyBlock(old(dev.blocks), dev.blocks, block)
  {
    hide Aligned, Put, Buffering;
    var k: nat := 0;
    assert w + data[..0] == w;
    while k < |data|
      invariant k <= |data| && Streaming(dev, pcache, block, start, w + data[..k], base) && rcache.Valid(dev)
      invariant OnlyBlock(old(dev.blocks), dev.blocks, block)
      decreases |data| - k, if pcache.block == NULL then 1 else 0
    {
      var off := off0 + k;
      StreamShape(dev, pcache, block, start, w + data[..k], base);
      if block == pcache.block && off >= pcache.off && off < pcache.off + dev.cacheSize {
        var diff := Min(|data| - k, dev.cacheSize - (off - pcache.off));
        Fill(dev, pcache, block, data[k..k + diff], start, w + data[..k], base);
        assert w + data[..k] + data[k..k + diff] == w + data[..k + diff];
        k := k + diff;
        if pcache.size == dev.cacheSize {
          ok := FlushFull(dev, pcache, rcache, validate, block, start, w + data[..k], base);
        }
      } else {
        Prepare(dev, pcache, block, off, start, w + data[..k], base);
      }
    }
    assert data[..|data|] == data;
    ok := true;
  }

  lemma StreamShape(dev: Device, pcache: CacheBuffer, block: nat, start: nat, w: seq<Byte>, base: seq<Byte>)
    requires Streaming(dev, pcache, block, start, w, base)
    ensures pcache.block == NULL || (pcache.block == block && pcache.off + pcache.size == start + |w|
            && pcache.size < dev.cacheSize)
    ensures dev.Valid() && block < dev.count
  {
    hide Put, Aligned;
  }

  function Blanks(n: nat): (s: seq<Byte>)
    ensures |s| == n && forall i | 0 <= i < n :: s[i] == Byte(0xff)
  {
    seq(n, _ => BLANK_BYTE)
  }

  /** A partly filled program cache is flushed with the blanks behind it. */
  method FlushLast(dev: Device, pcache: CacheBuffer, rcache: CacheBuffer, validate: bool, block: nat,
                   ghost start: nat, ghost w: seq<Byte>, ghost base: seq<Byte>) returns (ok: bool)
    requires Buffering(dev, pcache, block, start, w, base) && pcache.block == block
    requires rcache.Valid(dev) && Separate(pcache, rcache)
    modifies dev, pcache, pcache.buffer, rcache, rcache.buffer
    ensures var w' := w + Blanks(AlignUp(old(pcache.size), dev.progSize) - old(pcache.size));
            ok && Buffering(dev, pcache, block, start, w', base)
    ensures pcache.block == NULL && rcache.Valid(dev) && OnlyBlock(old(dev.blocks), dev.blocks, block)
    ensures validate ==> rcache.Agrees(dev)
    ensures !validate ==> rcache.block == old(rcache.block)
  {
    hide Aligned, Put, AlignUp, Blanks;
    PartLast(dev, pcache, block, start, w, base);
    ok := BdFlush(dev, pcache, rcache, validate);
  }

  /** What is in the program cache completes the stream, up to the end of a program unit. */
  lemma PartLast(dev: Device, pcache: CacheBuffer, block: nat, start: nat, w: seq<Byte>, base: seq<Byte>)
    requires Buffering(dev, pcache, block, start, w, base) && pcache.block == block
    ensures var all := AlignUp(pcache.size, dev.progSize);
            var w' := w + Blanks(all - pcache.size);
            && all <= pcache.buffer.Length && pcache.off + all <= dev.blockSize && start + |w'| == pcache.off + all
            && Aligned(start + |w'|, dev.progSize)
            && Put(dev.blocks[block], pcache.off, pcache.buffer[..][..all]) == Put(base, start, w')
  {
    hide Aligned, Put, AlignUp, Blanks;
    var n, all := pcache.off - start, AlignUp(pcache.size, dev.progSize);
    FlushFits(dev, pcache);
    BlankTail(pcache, all);
    assert pcache.buffer[..][..all] == pcache.buffer[..all];
    PutBehind(base, start, w, n, Blanks(all - pcache.size));
    AlignedSum(pcache.off, all, dev.progSize);
  }

  lemma PutBehind(base: seq<Byte>, start: nat, w: seq<Byte>, n: nat, pad: seq<Byte>)
    requires n <= |w| && start + |w| + |pad| <= |base|
    ensures Put(Put(base, start, w[..n]), start + n, w[n..] + pad) == Put(base, start, w + pad)
  {
    hide Put;
    PutTwice(base, start, w[..n], w[n..] + pad);
    assert w + pad == w[..n] + (w[n..] + pad);
  }

  lemma BlankTail(pcache: CacheBuffer, all: nat)
    requires pcache.size <= all <= pcache.buffer.Length && Blank(pcache, pcache.size)
    ensures pcache.buffer[..all] == pcache.buffer[..pcache.size] + Blanks(all - pcache.size)
  {
  }

  /** lfs_bd_sync, at the end of a stream: the device holds it, padded with blanks to a program unit. */
  method BdSync(dev: Device, pcache: CacheBuffer, rcache: CacheBuffer, validate: bool, block: nat,
                ghost start: nat, ghost w: seq<Byte>, ghost base: seq<Byte>) returns (ok: bool)
    requires Streaming(dev, pcache, block, start, w, base) && rcache.Valid(dev) && Separate(pcache, rcache)
    modifies dev, pcache, pcache.buffer, rcache, rcache.buffer
    ensures ok && pcache.block == NULL && rcache.Agrees(dev) && OnlyBlock(old(dev.blocks), dev.blocks, block)
    ensures var w' := w + Blanks(AlignUp(start + |w|, dev.progSize) - (start + |w|));
            Streaming(dev, pcache, block, start, w', base)
  {
    hide Aligned, Put, AlignUp;
    rcache.Drop();
    if pcache.block == NULL {
      AlignUpOfAligned(start + |w|, dev.progSize);
      ok := BdFlush(dev, pcache, rcache, validate);
      assert w + Blanks(0) == w;
    } else {
      AlignUpSum(pcache.off, pcache.size, dev.progSize);
      ok := FlushLast(dev, pcache, rcache, validate, block, start, w, base);
    }
  }

  lemma AlignUpSum(a: nat, b: nat, unit: nat)
    requires unit > 0 && Aligned(a, unit)
    ensures AlignUp(a + b, unit) == a + AlignUp(b, unit)
  {
    AlignedSum(a, AlignUp(b, unit), unit);
    AlignUpIsLeast(a + b, a + AlignUp(b, unit), unit);
    AlignedDifference(AlignUp(a + b, unit), a, unit);
    AlignUpIsLeast(b, AlignUp(a + b, unit) - a, unit);
  }

  function Concat(chunks: seq<seq<Byte>>): seq<Byte> {
    if chunks == [] then [] else Concat(chunks[..|chunks| - 1]) + chunks[|chunks| - 1]
  }

  /**
   * Buffered programming refines direct writing: however a stream is cut into calls, after a sync the block holds its
   * concatenation from an aligned place on, padded to a program unit; every other block is as before.
   */
  method ProgramAll(dev: Device, pcache: CacheBuffer, rcache: CacheBuffer, validate: bool, block: nat, start: nat,
                    chunks: seq<seq<Byte>>)
    requires dev.Valid() && pcache.Valid(dev) && rcache.Valid(dev) && Separate(pcache, rcache)
    requires pcache.block == NULL && Blank(pcache, 0) && block < dev.count && Aligned(start, dev.progSize)
    requires dev.clean[block] <= start && start + |Concat(chunks)| <= dev.blockSize
    modifies dev, pcache, pcache.buffer, rcache, rcache.buffer
    ensures rcache.Agrees(dev) && OnlyBlock(old(dev.blocks), dev.blocks, block)
    ensures var w := Concat(chunks);
            var pad := AlignUp(start + |w|, dev.progSize) - (start + |w|);
            start + |w| + pad <= dev.blockSize
              && dev.blocks[block] == Put(old(dev.blocks)[block], start, w + Blanks(pad))
    ensures Programmed(old(dev.blocks)[block], start, Concat(chunks), dev.progSize, dev.blocks[block])
  {
    hide Aligned, Streaming, Put, AlignUp;
    ghost var base := dev.blocks[block];
    var off := start;
    StreamBegins(dev, pcache, block, start);
    assert chunks[..0] == [];
    for i := 0 to |chunks|
      invariant Streaming(dev, pcache, block, start, Concat(chunks[..i]), base) && rcache.Valid(dev)
      invariant off == start + |Concat(chunks[..i])| && OnlyBlock(old(dev.blocks), dev.blocks, block)
    {
      assert chunks[..i + 1][..i] == chunks[..i];
      ConcatGrows(chunks, i + 1);
      var ok := BdProg(dev, pcache, rcache, validate, block, off, chunks[i], start, Concat(chunks[..i]), base);
      off := off + |chunks[i]|;
    }
    assert chunks[..|chunks|] == chunks;
    var ok := BdSync(dev, pcache, rcache, validate, block, start, Concat(chunks), base);
    StreamDone(dev, pcache, block, start, Concat(chunks) + Blanks(AlignUp(off, dev.progSize) - off), base);
    PaddedReads(base, start, Concat(chunks), dev.progSize);
  }

  /**
   * Byte by byte: the data from start on, 0xff behind it up to the end of a program unit, and everything else as
   * before.
   */
  ghost predicate Programmed(before: seq<Byte>, start: nat, data: seq<Byte>, prog: nat, after: seq<Byte>) {
    && |after| == |before| && start + |data| <= |before|
    && exists end: nat ::
         && prog > 0 && end % prog == 0 && start + |data| <= end < start + |data| + prog
         && forall i | 0 <= i < |after| ::
              after[i] == if start <= i < start + |data| then data[i - start]
                          else if start + |data| <= i < end then Byte(0xff)
                          else before[i]
  }

  lemma PaddedReads(before: seq<Byte>, start: nat, data: seq<Byte>, prog: nat)
    requires prog > 0 && AlignUp(start + |data|, prog) <= |before|
    ensures Programmed(before, start, data, prog,
              Put(before, start, data + Blanks(AlignUp(start + |data|, prog) - (start + |data|))))
  {
    hide AlignUp, Blanks;
    var end: nat := AlignUp(start + |data|, prog);
    var w := data + Blanks(end - (start + |data|));
    var after := Put(before, start, w);
    forall i | 0 <= i < |after|
      ensures after[i] == if start <= i < start + |data| then data[i - start]
                          else if start + |data| <= i < end then Byte(0xff)
                          else before[i]
    {
      if i < start {
        assert after[i] == after[..start][i] == before[..start][i];
      } else if i < start + |w| {
        assert after[i] == after[start..start + |w|][i - start] == w[i - start];
      } else {
        assert after[i] == after[start + |w|..][i - start - |w|] == before[start + |w|..][i - start - |w|];
      }
    }
    assert end % prog == 0;
  }

  lemma StreamDone(dev: Device, pcache: CacheBuffer, block: nat, start: nat, w: seq<Byte>, base: seq<Byte>)
    requires Streaming(dev, pcache, block, start, w, base) && pcache.block == NULL
    ensures block < |dev.blocks| && start + |w| <= dev.blockSize == |base| && dev.blocks[block] == Put(base, start, w)
  {
    hide Put, Aligned;
  }

  lemma StreamBegins(dev: Device, pcache: CacheBuffer, block: nat, start: nat)
    requires dev.Valid() && pcache.Valid(dev) && pcache.block == NULL && Blank(pcache, 0) && block < dev.count
    requires Aligned(start, dev.progSize) && dev.clean[block] <= start <= dev.blockSize
    ensures Streaming(dev, pcache, block, start, [], dev.blocks[block])
  {
    hide Aligned;
    assert Put(dev.blocks[block], start, []) == dev.blocks[block];
  }

  lemma {:induction false} ConcatGrows(chunks: seq<seq<Byte>>, i: nat)
    requires i <= |chunks|
    ensures |Concat(chunks[..i])| <= |Concat(chunks)|
    decreases |chunks| - i
  {
    if i < |chunks| {
      assert chunks[..i + 1][..i] == chunks[..i];
      ConcatGrows(chunks, i + 1);
    } else {
      assert chunks[..i] == chunks;
    }
  }
}
