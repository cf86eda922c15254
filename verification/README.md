# littlefs: a verified model of its core

This project models the core of littlefs as it is vendored in `packages/littlefs-latest` (version 2.4), a copy-on-write
filesystem that survives power loss, and proves what that design promises. `dafny verify dfyconfig.toml` checks it.

The files follow the layers of the original, from the bottom up.

| layer | files |
|---|---|
| words, checksums, bit tricks | `Words`, `Arith`, `Bits`, `Checksum` |
| the on-disk format in numbers | `Format` |
| block device behind a read and a program cache | `Cache` |
| block allocation | `Allocator` |
| files: the skip-list of their blocks, and their operations | `CtzIndexing`, `CtzList`, `FileData`, `FileOps` |
| metadata log: tags, what a log means, lookup, traversal and compaction | `Tags`, `Log`, `Lookup`, `LogReader`, `Traverse`, `Compaction` |
| metadata log: commits on a block, fetching them back, power loss | `Fetch`, `Scanner`, `Commit`, `Committer`, `Switch`, `Torn`, `PowerLoss` |
| a metadata pair in memory and on disk | `Contents`, `MetadataPair` |
| names: their order, the search for one, creating a file | `Names`, `Order`, `Find`, `Create` |
| global state, moves and renames | `GlobalState`, `Conservation`, `Moves`, `Filesystem`, `Loss` |

Code that works in place is modelled in place: `lfs_mdir_t`, `struct lfs_commit`, `lfs_file_t`, `lfs_cache_t`, the
lookahead buffer and `lfs_t`'s global state are the classes `Mdir`, `LfsCommit`, `File`, `CacheBuffer`, `Lookahead` and
`Lfs`, and the loops of the original are loops here. Each such method is proved against a specification on values: a log
means what replaying its tags from the front leaves (`Log.Replay`), a block means what a fetch finds on it
(`Fetch.FetchBlock`), a read means the device overlaid by the program cache (`Cache.Seen`), a file means a sequence of
bytes together with what a mount would find in it (`FileOps.Perform`), and a block of the skip-list lies where the sum of
the capacities before it says (`CtzIndexing.IsPosition`).

## What the code does not do

The model follows the code where the code falls short of its own promise. Each of these has an exact condition.

- `lfs_ctz_index` puts some offsets into the wrong block or among a block's pointers if blocks are small. `lfs_init` lets
  through every block size from 104; the formula is right for all 32-bit offsets from 116
  (`CtzIndexing.IndexIsRightExactly`) and for all offsets of a file from 112 (`CtzIndexing.FileIndexIsRightExactly`).
- A rename whose first commit fails leaves the move prepared in memory. Where no commit needs a split of its directory,
  the entry is listed under neither name exactly if that commit has no room, nothing clears the move, and the next commit
  elsewhere has room; it is listed under both names exactly if the first commit has room, the second one does not and the
  next one does (`Filesystem.Lfs.RenameThenCommit`). `Loss.LossRun` is such a loss, from blank blocks on.
- An attribute that a `LFS_FROM_*` item brings in comes back if the same attribute list removes it afterwards and goes on
  (`Compaction.CompactionExactly`). No caller commits such a list (`Compaction.RemovalsFirstIsHarmless`).
- While a move is pending in one pair of a directory, a name in a later pair is not found exactly if the first of the two
  pairs has ever had a name in its log that is this one or comes behind it: `lfs_dir_fetchmatch` then compares an id that
  leaves the hidden entry out with a count that does not, and the search ends there (`Find.FoundExactly`).
  `Find.MoveHidesOther` is such a directory.
- A drop whose commit fails leaves `gdelta` wrong exactly if the pair stored some state
  (`Conservation.FailedDropExactly`); between the two commits that write a new pair and link it, disk and memory disagree
  exactly if there was some state to carry (`Conservation.WriteExactly`).
- The loop of `lfs_bd_read` always ends exactly if the read size divides the program size, which `lfs_init` does not
  check (`Cache.ProgressExactly`); otherwise it can stand still for ever (`Cache.StuckForEver`).
- The portable `lfs_npw2` gives 1 for 1, where its comment asks for 0 (`Bits.PortableNpw2`).
- `lfs_alloc_drop` after a failed traversal also acknowledges. A block that was handed out comes back exactly if the
  traversals that succeed do not cover the device (`Allocator.Lookahead.DrainTwice`), and only then
  (`Allocator.AllocRun`); `Allocator.Reused` is such a run.
- `lfs_alloc` reports no space although a block is free exactly if that block is still marked in what was left of the
  window at the last acknowledgement (`Allocator.Lookahead.Drain`).
- A commit that a power loss cuts in the middle of a tag word is taken for complete exactly if what is left of the word
  reads as a CRC tag with the checksum of erased bytes (`Torn.CutAppend`, `PowerLoss.SwitchIsAtomic`).

## Model

| member | source | states |
|---|---|---|
| Compaction.CompactionExactly | packages/littlefs-latest/lfs.c:713-835 | for every log, attribute list and id range: the entries that the filtered traversal emits are, renumbered from 0, those of the log followed by the list, if and only if no attribute that a LFS_FROM_* item brings in has as its last write in the list a plain removal that some other tag follows |
| Compaction.CompactionPreserves | packages/littlefs-latest/lfs.c:1703-1717 | for lists that resurrect nothing: the compacted directory has exactly the entries of the range, renumbered from 0, nothing behind them, and counts them right if the last one has a name |
| Compaction.RemovalsFirstIsHarmless | packages/littlefs-latest/lfs.c:3357-3365 | lists with no removal of an attribute behind a LFS_FROM_* item, as rename and file sync commit them, never resurrect anything |
| Compaction.SyncIsHarmless | packages/littlefs-latest/lfs.c:2848-2853 | the list that a file sync commits resurrects nothing |
| Compaction.RemovalAfterListResurrects | packages/littlefs-latest/lfs.c:713-741 | a concrete list on which a removed attribute comes back |
| Compaction.FilterMeaning | packages/littlefs-latest/lfs.c:713-741 | filtering a tag by all later ones keeps it exactly when its entry still exists, under the id it then has, nothing later writes the same attribute, and it is not a removal with something behind it |
| Compaction.MoveCopies | packages/littlefs-latest/lfs.c:813-823 | LFS_FROM_MOVE copies exactly the struct and user attributes of one entry to another id, and nothing else |
| Traverse.Traverse | packages/littlefs-latest/lfs.c:743-835 | the nested traversal loops emit exactly what the recursive specification of filter, type mask, id range and renumbering says |
| Lookup.GetSlice | packages/littlefs-latest/lfs.c:582-642 | the backward walk over the block answers every query as the forward replay does, with a pending move counting as one more delete; NOENT exactly when the replay has no value or a removal; a slice is exactly the bytes of the block from its place in the value on, as many as value and buffer have, then zeros, and fails exactly if these leave the block; ids never leave their 10 bits |
| Lookup.SlicedBytes | packages/littlefs-latest/lfs.c:620-638 | byte by byte, a slice is what lies on the block from its place in the value on, and zero behind the value |
| Lookup.BackIsNewest | packages/littlefs-latest/lfs.c:597-642 | walking the records backward while renumbering past creates and deletes finds the newest value that replaying them forward leaves under an id |
| Lookup.NumberedFits | packages/littlefs-latest/lfs.c:614-626 | in a log with consecutive numbers every entry below the count can be looked up without the tag arithmetic wrapping |
| Lookup.FetchedEncodes | packages/littlefs-latest/lfs.c:597-612 | the offset and tag that a fetch keeps lead backward through exactly the log it read forward |
| LogReader.ReadLog | packages/littlefs-latest/lfs.c:752-790 | reading tags forward from the start of a block yields the log that the backward chain encodes |
| Commit.AppendThenFetch | packages/littlefs-latest/lfs.c:1294-1399 | after a commit behind the last one of a block a scan of that block recovers the old log followed by the new attributes and CRC tags, the tail, and the offset and tag the committer ended with, whatever the block holds behind; it finds the rest erased unless the block is full |
| Commit.FooterEnd | packages/littlefs-latest/lfs.c:1353-1357 | every CRC tag has a size from 4 to 0x3fe, and what is left up to the aligned end is nothing or at least 8 bytes |
| Committer.LfsCommit.CommitAttr | packages/littlefs-latest/lfs.c:1294-1339 | writes exactly the chained tag and its data and folds them into the checksum, or writes nothing when they do not fit |
| Committer.LfsCommit.CommitFooters | packages/littlefs-latest/lfs.c:1352-1393 | the padding loop leaves the block that the specification of a closed commit describes and ends exactly at the aligned end |
| Committer.LfsCommit.CheckWritten | packages/littlefs-latest/lfs.c:1401-1436 | the write check passes exactly when the segments it visits, those the padding loop wrote, have checksum 0 and the first had the expected checksum |
| Committer.LfsCommit.CommitCrc | packages/littlefs-latest/lfs.c:1341-1439 | closes the commit and passes its own check |
| Committer.WrittenPasses | packages/littlefs-latest/lfs.c:1401-1436 | what was written meets the write check, for every offset, program size and content |
| Torn.TornCommitExactly | packages/littlefs-latest/lfs.c:889-978 | whatever lies behind the last commit of a block, a fetch returns exactly the state at that commit if and only if every CRC tag that the walk from there reaches stores a wrong checksum; otherwise it returns an extension of that state |
| Torn.ErasedExactly | packages/littlefs-latest/lfs.c:907-916 | a fetch takes what follows for erased if and only if it has found a commit that ends at a program unit with a word behind it that reads as invalid; for every content of the block |
| Torn.ErasedStays | packages/littlefs-latest/lfs.c:907-916 | while the first byte behind the last commit is as before, it is taken for erased or not as before |
| Torn.CutAppend | packages/littlefs-latest/lfs.c:889-978 | an append cut at any byte: once its first CRC tag is complete a fetch returns the old log, the new attributes and nothing but CRC tags behind them, with the tail they leave; before that exactly the old state, if and only if the cut does not leave a tag word that reads as a CRC tag with the checksum of erased bytes, and then what follows is not taken for erased |
| PowerLoss.AppendIsAtomic | packages/littlefs-latest/lfs.c:1891-1953 | so a fetch finds exactly the old state, or a directory with the entries after the commit, their tail and the new stored global state |
| PowerLoss.CompleteExactly | packages/littlefs-latest/lfs.c:1039-1067 | a block counts exactly if some CRC tag of the walk over its bytes stores the right checksum |
| PowerLoss.CutComplete | packages/littlefs-latest/lfs.c:1669-1777 | a compaction cut at any byte counts exactly if it is there up to the end of its first CRC tag, stray words apart, and then holds exactly the records being written, CRC tags and their tail |
| PowerLoss.SwitchIsAtomic | packages/littlefs-latest/lfs.c:852-873 | while the next revision is written into the other block a fetch of the pair, either way round, finds the old block at every point until the first CRC tag of the new one is complete, stray words apart, and from then on the new block with exactly the new records; also when revisions wrap around |
| PowerLoss.CompactIsAtomic | packages/littlefs-latest/lfs.c:1669-1783 | so the pair has the old block in force, or on the new one a directory with the entries after the commit, their tail and the new stored global state |
| PowerLoss.UnsealedStaysOut | packages/littlefs-latest/lfs.c:1039-1067 | a block with a revision that is not older stays out of force exactly as long as its bytes seal nothing |
| Switch.InForceExactly | packages/littlefs-latest/lfs.c:852-1067 | a block is the one fetched, either way round, exactly if it holds a commit and the other holds none or an older revision |
| Switch.OneIsNewer | packages/littlefs-latest/lfs_config.h:120-124 | of two different revisions exactly one is newer, unless they are half of 2^32 apart; below that distance it is the one ahead |
| Switch.NextIsNewer | packages/littlefs-latest/lfs_config.h:122-124 | the next revision compares as newer, also from 0xffffffff to 0 |
| Scanner.ScanBlock | packages/littlefs-latest/lfs.c:875-1037 | the scan loop finds the last complete commit, its tag, tail and count, whether the rest is erased, and the tag it remembers of a name, as the specification does |
| Scanner.FetchDir | packages/littlefs-latest/lfs.c:846-1073 | tries the newer block first and falls back on the other; fails exactly if neither holds a commit; what it remembers of a name is that of the block it settles on |
| Scanner.CountIsReplay | packages/littlefs-latest/lfs.c:980-987 | the entry count kept by the scan is that of the replay |
| Names.NamesAreOrdered | packages/littlefs-latest/lfs.c:1141-1163 | the comparison of names is a total order, in which a name comes before its own beginnings; with OrderIsTransitive |
| Names.SearchKeepsPlace | packages/littlefs-latest/lfs.c:979-1036 | throughout the scan of a log in order, the one tag that is remembered is the entry with the name, or marks the place where the name belongs, in 32-bit arithmetic, over creates, deletes and names in any order of ids |
| Names.FindExactly | packages/littlefs-latest/lfs.c:979-1036 | at the end it is a match if and only if an entry has the name, and then that entry's tag; otherwise its id, or the count if that is less, parts the entries before the name from those behind it |
| Names.SearchExactly | packages/littlefs-latest/lfs.c:1039-1061 | with the entry of a pending move taken away the answer is right about the entries that show; it sends the search on to the next pair if and only if all of these come before the name and, while one is hidden here, no name in the log ever reached this one |
| Names.BlankExactly | packages/littlefs-latest/lfs.c:843-843 | the remembered tag stays -1 if and only if every name in the log comes before the one looked for |
| Order.CreateTidy | packages/littlefs-latest/lfs.c:2511-2515 | an entry created where its name belongs keeps the log in order, with every entry named |
| Order.DeleteTidy | packages/littlefs-latest/lfs.c:985-995 | and so does a delete |
| Order.RenameTidy | packages/littlefs-latest/lfs.c:3356-3365 | the list of a rename keeps the target in order, with every entry named, where the search gives the place or the replaced entry; within one directory too |
| Order.CompactTidy | packages/littlefs-latest/lfs.c:1703-1717 | a compaction emits each name once and leaves a log in order, with the same names under the same ids, though it emits them in the order in which they were written |
| Order.CommitTidy | packages/littlefs-latest/lfs.c:1846-1963 | a commit whose attribute list keeps the log in order leaves a log in order on disk, appended or compacted, with the names that the list leaves |
| Find.FetchMatch | packages/littlefs-latest/lfs.c:838-1073 | from two blocks: LFS_ERR_CORRUPT exactly if neither holds a commit, otherwise the specified answer about the log of the block in force |
| Find.FindName | packages/littlefs-latest/lfs.c:1238-1258 | the loop over the pairs of a directory gives the answer of the specified search over the pairs it has read, the last of which does not send it on or ends the directory; LFS_ERR_CORRUPT only at a pair without a commit that it has been sent on to |
| Find.FindIsExact | packages/littlefs-latest/lfs.c:1238-1258 | while no move is pending, the search over a directory of any number of pairs finds a name if and only if some entry has it; otherwise it gives the pair and the id that keep all names in order |
| Find.FoundExactly | packages/littlefs-latest/lfs.c:1038-1061 | with moves pending anywhere, a name that shows is found if and only if no earlier pair both hides an entry and has ever had a name in its log at or behind this one |
| Find.MoveHidesOther | packages/littlefs-latest/lfs.c:1040-1060 | a concrete directory of two pairs in which it is not found |
| Find.CreateIsFound | packages/littlefs-latest/lfs.c:2511-2515 | for every directory in order and every new name, the entry created where the search says keeps the whole directory in order, and the next search finds exactly it |
| Create.CreateFile | packages/littlefs-latest/lfs.c:2511-2515 | the same through the commit to disk: when it goes through, the directory read back is in order, the search finds the new file in its place, its entry holds exactly its name as a regular file and an empty inline struct, and every other entry keeps all its attributes; when it does not, the pair is as it was |
| Create.NewFileShows | packages/littlefs-latest/lfs.c:2511-2515 | what the attribute list of a new file writes, attribute by attribute, and that it leaves every other entry alone |
| Create.RootShows | packages/littlefs-latest/lfs.c:3643-3647 | what formatting leaves under id 0 of the root directory: the name "littlefs" of type 0x0ff and the superblock as an inline struct |
| Create.RootSearch | packages/littlefs-latest/lfs.c:1238-1258 | in a formatted root directory no name is found, and every name, also one that comes before "littlefs", goes to id 1, behind the superblock entry |
| Create.SuperblockStaysFirst | packages/littlefs-latest/lfs.c:1238-1258 | as long as the superblock entry is at id 0 of the first pair, no name is found or placed there |
| Create.RootCreate | packages/littlefs-latest/lfs.c:3643-3647 | after the first file has been created in a formatted root, the directory is in order, the file is found at id 1 and the superblock entry is still at id 0 |
| MetadataPair.Mdir.Commit | packages/littlefs-latest/lfs.c:1846-1963 | what it answers is a function of what is to be written and the room there is; on success the entries are those of the old log followed by the attribute list, the stored global state is the old one with the delta added, the block is the specified append or compaction, an append exactly if the rest of the block is erased and has room, and the block in force stays in force; on failure memory is as it was, and where erased bytes read as 0xff a fetch finds the pair as it was, though a compaction that ran out of room has erased the other block |
| MetadataPair.Mdir.Compact | packages/littlefs-latest/lfs.c:1574-1783 | the same for a rewrite into the other block: it needs a split exactly if there is more than one entry and more than half a block of attributes, and has no room exactly if these exceed the block, or its reserve when no block is left for a split; unless no block is left, a directory of several entries takes at most half a block, rounded up to program units; afterwards that block is in force under the next revision |
| MetadataPair.SplitFromHalf | packages/littlefs-latest/lfs.c:1589-1598 | when a compaction needs a split, has room and has none, in numbers of bytes |
| MetadataPair.Mdir.Append | packages/littlefs-latest/lfs.c:1882-1953 | the same for an append, which succeeds exactly if the records and a CRC tag fit behind the log; a failed one leaves everything up to the old end of the log |
| MetadataPair.Mdir.Get | packages/littlefs-latest/lfs.c:644-649 | answers every query as the replay of the pair's log does |
| MetadataPair.Mdir.GetState | packages/littlefs-latest/lfs.c:1083-1099 | the global-state delta that the log stores last |
| MetadataPair.Open | packages/littlefs-latest/lfs.c:1075-1081 | the fields of a fetched pair are what its blocks say; failure exactly if neither block holds a commit |
| GlobalState.StateRoundTrip | packages/littlefs-latest/lfs.c:384-394 | a global state survives being stored |
| Conservation.RunConserves | packages/littlefs-latest/lfs.c:1911-1953 | over every run of commits, compactions, splits, relocations, drops and mounts the stored deltas and the changes under way add up to gdisk and gdelta but for the orphan count; with nothing under way the disk alone does, and after a commit it adds up to gstate, which a mount then finds |
| Conservation.StepBalances | packages/littlefs-latest/lfs.c:1735-1781 | each event keeps the accounts, except exactly an error that gives up changes carrying some state |
| Conservation.AbandonExactly | packages/littlefs-latest/lfs.c:1517-1523 | giving up changes under way keeps the accounts if and only if they carry no state |
| Conservation.WriteExactly | packages/littlefs-latest/lfs.c:1508-1540 | after a new pair is written and before it is linked, disk and memory agree if and only if there was no state to carry |
| Conservation.FailedDropExactly | packages/littlefs-latest/lfs.c:1487-1502 | a failing drop keeps disk and memory in agreement if and only if the pair stored no state |
| Conservation.MountedOrphans | packages/littlefs-latest/lfs.c:3785-3786 | a mount counts one orphan if the flag for orphans is stored, and none otherwise; everything else stays |
| Conservation.MountFinds | packages/littlefs-latest/lfs.c:3766-3787 | a mount finds the sum of what the linked pairs store, but for the orphan count |
| Moves.PreparedHides | packages/littlefs-latest/lfs.c:4105-4111 | a prepared move hides its entry in every pair that has a block in common with the one it was prepared for, in whichever order either is listed, and nothing elsewhere; a cleared one hides nothing; the orphan count and its flag stay |
| Moves.HiddenEitherWay | packages/littlefs-latest/lfs.c:264-269 | whether a move is pending in a pair does not depend on the order of its addresses |
| Moves.HiddenShows | packages/littlefs-latest/lfs.c:589-594 | hiding an entry shows exactly what deleting it would leave |
| Moves.RenameShows | packages/littlefs-latest/lfs.c:3356-3365 | the attribute list of a rename puts one entry with the new name and all other attributes of the old one at the new id and moves no other entry but by renumbering |
| Moves.RenameWithinMoves | packages/littlefs-latest/lfs.c:3308-3313 | within one directory, newoldid always hits the old entry: it and a replaced one are gone, the new one is there once, every other entry once |
| Moves.SyncShows | packages/littlefs-latest/lfs.c:2848-2853 | the list of a file sync gives its entry the new struct and the user attributes in order, leaves its other attributes alone, and changes no other entry |
| Filesystem.Lfs.CommitDir | packages/littlefs-latest/lfs.c:1911-1953 | a commit carries the difference between gstate and what the disk says, succeeds exactly if that and the attributes fit, and then gdisk is gstate and gdelta nothing |
| Filesystem.Lfs.Rename | packages/littlefs-latest/lfs.c:3352-3381 | after every prefix of its commits a mount shows both directories as before or both as after, in whichever order it finds the addresses of either pair; how many commits go through follows from the state before; on success no move is pending; after a failure memory holds exactly the prepared or the cleared move |
| Filesystem.ListsExactly | packages/littlefs-latest/lfs.c:2166-2211 | a mount lists exactly the entries below the count but for the hidden one |
| Filesystem.Lfs.RenameThenCommit | packages/littlefs-latest/lfs.c:3352-3381 | after a rename and any later commit elsewhere the entry is listed under neither name if and only if the first commit does not fit, the move is not cleared and the later commit fits; under both if and only if the first fits, the second does not and the later one does; all of it read off the state before, of which is asked that none of the commits needs a split |
| Loss.LossRun | packages/littlefs-latest/lfs.c:3352-3366 | a run from blank blocks on: three directories with one new file each are made, one of the files gets a long user attribute, a rename into its directory finds no room and fails, a file sync in the third succeeds, and the entry is listed nowhere |
| Filesystem.Lfs.RenameWithin | packages/littlefs-latest/lfs.c:3304-3365 | one commit within a pair, which succeeds exactly if it fits, leaves exactly the entries that the rename asks for |
| Filesystem.Lfs.Demove | packages/littlefs-latest/lfs.c:4115-4144 | what is stored becomes what was shown, and no move is pending any more; it fails exactly if a move is pending and its delete does not fit |
| FileOps.Run | packages/littlefs-latest/lfs.c:2814-3095 | any run of reads, writes, seeks, flushes and syncs behaves as on a sequence of bytes, with zeros in gaps, append mode and the size limit; it ends early only if a directory commit is refused, or if every block is in the tree, was in it on the way (no tree larger than the bytes account for), or was marked in the window when the run began, and then a write leaves a part of what was to be written; at every end a mount finds the file exactly as the last successful sync left it, and nothing else committed has changed |
| FileOps.File.Traverse | packages/littlefs-latest/lfs.c:3878-3899 | the traversal reports exactly the committed tree, file->ctz while it is dirty and the list being written |
| FileOps.File.Allocate | packages/littlefs-latest/lfs.c:3010-3014 | with the acknowledgements of the write loop the allocator always hands out a block that belongs to nothing, or every block is in the tree or was marked in what was left of the window before; the window gains no marks but those of the tree |
| FileOps.File.Write | packages/littlefs-latest/lfs.c:2940-3059 | overwrites and extends the contents from the position, or from the end in append mode, where the old contents stay; LFS_ERR_FBIG exactly beyond the limit; otherwise it fails only if every block is in the tree or was marked in the window before; byte by byte, as far as it has come, the data, zero bytes in a gap, and the old contents elsewhere |
| FileOps.OverwrittenReads | packages/littlefs-latest/lfs.c:2965-3052 | byte by byte, what the sequence of bytes holds after a write: the data, zero bytes in a gap, and what was there elsewhere |
| FileOps.File.Read | packages/littlefs-latest/lfs.c:2866-2937 | returns exactly the bytes from the position on that exist, after flushing what was written; fails only if that finds every block in the tree or marked in the window before |
| FileOps.File.Flush | packages/littlefs-latest/lfs.c:2734-2810 | copies the rest of the old file behind what was written and leaves the contents and the position as they were; fails only if every block is in the tree or was marked in the window before, and keeps the contents then too |
| FileOps.File.Seek | packages/littlefs-latest/lfs.c:3062-3095 | moves the position exactly if it stays within the limit, in 32-bit arithmetic; otherwise, or if a flush finds every block in the tree or marked in the window before, it fails |
| FileOps.File.Sync | packages/littlefs-latest/lfs.c:2814-2863 | does nothing after an error; otherwise the contents become what a mount finds, or it fails because every block is in the tree or was marked in the window before, or for want of the directory commit, and a mount finds what it found |
| FileData.ExtendedData | packages/littlefs-latest/lfs.c:2315-2411 | an extended list holds the same bytes and has room for the next one |
| FileData.ProgrammedData | packages/littlefs-latest/lfs.c:3025-3046 | bytes programmed into the last block come behind the contents |
| CtzIndexing.CtzIndex | packages/littlefs-latest/lfs.c:2267-2278 | the index and place computed with popcount, without wrapping, are those that the sum of the block capacities defines |
| CtzIndexing.IndexIsRightExactly | packages/littlefs-latest/lfs.c:2267-2278 | of the block sizes that lfs_init lets through, the formula is right for every 32-bit offset exactly from 116 on |
| CtzIndexing.FileIndexIsRightExactly | packages/littlefs-latest/lfs.c:2267-2278 | and right for every offset up to LFS_FILE_MAX exactly from 112 on |
| CtzIndexing.AdmittedFrom104 | packages/littlefs-latest/lfs.c:3498-3500 | the check of lfs_init lets through exactly the block sizes from 104 |
| CtzIndexing.PositionIsUnique | packages/littlefs-latest/lfs.c:2267-2278 | no other index and place fit an offset |
| CtzIndexing.PointerSumClosed | packages/littlefs-latest/lfs.c:2267-2278 | the sum over j of ctz(j) + 1 is 2n - popc(n) |
| CtzList.CtzFind | packages/littlefs-latest/lfs.c:2280-2312 | finds the block and place of an offset, never jumping past it, following at most twice as many pointers as the distance has bits |
| CtzList.CtzExtend | packages/littlefs-latest/lfs.c:2315-2411 | turns a well-formed list into a well-formed list ending with the new block, or with a copy of an incomplete last block; no other block changes |
| CtzList.CtzTraverse | packages/littlefs-latest/lfs.c:2414-2455 | calls back each block, last to first, though it steps by one or two |
| CtzList.ReverseCounts | packages/littlefs-latest/lfs.c:2414-2455 | so every block is called back exactly once |
| Allocator.Lookahead.Alloc | packages/littlefs-latest/lfs.c:534-578 | never hands out a block in use or one handed out since the last acknowledgement, across refills and wrap-around; ends; without space every block was found in use, marked in the window at hand or handed out; a traversal fails only if the good ones do not cover the budget |
| Allocator.Lookahead.Drain | packages/littlefs-latest/lfs.c:534-578 | calls until no block is handed out, with the tree as it is, hand out each block that is neither in use nor marked in what was left of the window, once; one fails exactly if the good traversals do not cover the device, and then exactly the free blocks up to there have been handed out |
| Allocator.Lookahead.DrainTwice | packages/littlefs-latest/lfs.c:527-531 | every block of such calls comes back in the next ones if the good traversals did not cover the device, and none if they did |
| Allocator.AllocRun | packages/littlefs-latest/lfs.c:534-578 | over all runs without an acknowledgement a block comes back only if a call in between failed |
| Allocator.Reused | packages/littlefs-latest/lfs.c:569-574 | a concrete run in which one does |
| Allocator.Lookahead.Scan | packages/littlefs-latest/lfs.c:505-516 | bit j of the window is set exactly if block (off + j) mod block_count is in the tree |
| Allocator.Lookahead.Refill | packages/littlefs-latest/lfs.c:564-576 | moves the window on within the budget of positions not yet visited, or drops it when the traversal fails |
| Cache.BdRead | packages/littlefs-latest/lfs.c:27-108 | returns, byte by byte, what the program cache holds of the block and the device elsewhere, for every offset, size and state of the caches, with only aligned device reads inside blocks; LFS_ERR_CORRUPT exactly outside the device; the read cache keeps agreeing with the device; ends |
| Cache.ProgressExactly | packages/littlefs-latest/lfs.c:35-105 | of the sizes that lfs_init lets through, no turn of the loop leaves everything as it was exactly if the read size divides the program size |
| Cache.StuckForEver | packages/littlefs-latest/lfs.c:35-105 | once a turn leaves everything as it was, so does every number of turns |
| Cache.BdCmp | packages/littlefs-latest/lfs.c:116-140 | compares the device with some bytes as memcmp would |
| Cache.BdFlush | packages/littlefs-latest/lfs.c:144-176 | the cached range reaches the device with one aligned program of units not programmed since the erase |
| Cache.ProgramAll | packages/littlefs-latest/lfs.c:144-239 | however a stream is cut into calls, after a sync the block holds its concatenation, padded with 0xff to the end of a program unit, and the rest of the block is as before, and no other block has changed; no unit is programmed twice |
| Checksum.LfsCrc | packages/littlefs-latest/lfs_crc.c:4-20 | the loop over the nibble table computes the bitwise reflected CRC of polynomial 0x04c11db7 |
| Checksum.CrcConcat | packages/littlefs-latest/lfs.c:1326-1334 | the checksum of a commit can be folded in piece by piece |
| Checksum.CrcResidue | packages/littlefs-latest/lfs.c:1425-1428 | data followed by its own stored checksum has checksum 0 |
| Format.ByteOrders | packages/littlefs-latest/lfs_util.h:168-213 | tags are stored with their most significant byte first, all other words with their least significant byte first |
| Format.TagWord | packages/littlefs-latest/lfs.c:292-303 | type, id and size of a tag are bits 20 to 30, 10 to 19 and 0 to 9 of its word, under a valid bit that is 0 |
| Format.TagKinds | packages/littlefs-latest/lfs.h:91-120 | the numbers of the tag types, and what each of them is to a replay, a lookup, a search for a name and a commit |
| Format.StoredWords | packages/littlefs-latest/lfs.c:384-394 | the order of the words in a tail and in a move state |
| Format.CommitTakes | packages/littlefs-latest/lfs.c:1342-1344 | a commit ends at the first program unit that leaves room for a tag and a checksum |
| Format.ClosingTagReaches | packages/littlefs-latest/lfs.c:1353-1357 | a CRC tag reaches as far as its size field and the rule for what it may leave allow |
| Format.ClosingTag | packages/littlefs-latest/lfs.c:1359-1379 | its type says whether the word behind it reads as a valid tag |
| Format.CheckValue | packages/littlefs-latest/lfs_crc.c:4-20 | the checksum of "123456789" is 0x340bc6d9 |
| Format.ListPointers | packages/littlefs-latest/lfs.c:2373-2395 | pointer k of block n of a file is the k-th word of the block and leads to block n - 2^k |
| Format.FormattedRoot | packages/littlefs-latest/lfs.c:3643-3647 | the bytes with which a compacted root directory begins behind its revision |
| Tags.UnpackPack | packages/littlefs-latest/lfs.c:288-335 | the fields of a tag survive packing, and a packed tag is valid |
| Tags.PackUnpack | packages/littlefs-latest/lfs.c:288-335 | every word is the packing of its fields but for the valid bit |
| Bits.Npw2IsSmallest | packages/littlefs-latest/lfs_config.h:84-97 | npw2 is the least power of two not below its argument |
| Bits.CtzDivides | packages/littlefs-latest/lfs_config.h:99-107 | ctz is the exponent of the largest power of two that divides |
| Bits.PortableNpw2 | packages/littlefs-latest/lfs_config.h:84-97 | the shifting loop of the portable body computes npw2 from 2 on, and gives 1 for 1 and 32 for 0 |

## Left out

- Splits of a directory that has become too big: `Mdir.Compact` answers `NeedsSplit` and writes nothing, which the rest of
  the model takes for a commit that does not go through. Only their effect on the global state is modelled, in
  `Conservation`. With no block left for a split the answer is the code's.
- Relocation of bad or worn blocks, superblock expansion and `lfs_fs_relocate`: programs and erases succeed. Only their
  effect on the global state is modelled. `metadata_max` is 0.
- Dropping a pair that a commit empties: `Lfs.CommitDir` asks for a commit that does not (`KeepsPair`), and renames and
  `Demove` for a source that is not the last entry of a pair continuing another.
- Filesystem.Lfs.Rename: a directory that replaces another, with its orphan bookkeeping, is not modelled; of the names
  only the tag is, and where the new entry goes is a parameter.
- Filesystem.Lfs.RenameThenCommit: asks that none of its commits needs a split, which is so whenever no block is left for
  one; what clears a prepared move is a parameter; that entries are distinguishable is asked
  for, since names are unique in a directory.
- Lookup.GetSlice: masks that compare only part of an id, which no caller uses, and lookups of creates and deletes by id
  are not modelled.
- Scanner.ScanBlock: looks for names only, as `lfs_dir_find` does; the matches of a mount's superblock search and of the walks over
  parents are not modelled. A name tag of size 0x3ff, which is never written, is compared as an empty name.
- Scanner.FetchDir: block addresses outside the device, and a revision that cannot be read, are not modelled.
- Find.FindName: the pairs that the tails lead through are given as a list that is long enough; paths, with their slashes
  and dots, are not modelled, nor are errors of the device.
- Create.CreateFile: the place comes from a search made before, with no move pending, as `lfs_fs_forceconsistency` sees to;
  asks for fewer than 0xfe entries. A commit that needs a split counts as one that does not go through.
- Commit.AppendThenFetch: one block and the scan of it; the choice between two blocks and the count are the subject of
  `Switch` and `Scanner`. CRC and tail tags already on the block have the sizes littlefs writes.
- Torn.TornCommitExactly: asks that the CRC and tail tags already on the block have the sizes littlefs writes.
- Torn.CutAppend: bytes not written yet read as 0xff, here, in `PowerLoss` and for the failures of `Mdir.Commit`;
  everywhere else what an erased block reads as is up to the device, and `Torn.TornCommitExactly` and
  `PowerLoss.UnsealedStaysOut` hold for any bytes.
- MetadataPair.Mdir.Commit: asks for fewer than 0xff entries, names for all of them and lists that resurrect nothing;
  open files and directories that follow a commit (`lfs->mlist`) are not modelled.
- Conservation.MountFinds: the walk over the tail list is not modelled; the list of linked pairs is part of the state.
- FileOps.Run: one file is open at a time, and traversals do not fail. Inline files, truncation, and read-only and
  synchronous open modes are not modelled. What the directories lead to besides the file does not change, and the answer
  of the directory commit of a sync is a parameter.
- FileOps.File.Write: sizes above 2^31 are not modelled, since with them the 32-bit sum of position and size can wrap and
  get past the limit.
- CtzList.CtzExtend: erases and programs succeed, and blocks are accessed directly; the caches are modelled on their own.
- Cache.BdRead: asks for a read size that divides the program size, a hint of at least 1, and an offset and a size whose
  sum stays below 2^32, without which the guard can be passed from outside; reads of the device succeed.
- Allocator.Lookahead.Alloc: the bitmap is an array of booleans, not of 32-bit words; what a traversal reports is a
  parameter.
- Endianness conversion, user callbacks, locks, tracing, open-file lists, format and the migration from version 1.
