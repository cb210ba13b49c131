# A verified model of a small disk-based storage engine

The engine has four layers: a disk manager that keeps 8 KB pages in one file, a scheduler with one worker
in front of it, a buffer pool with an ARC replacer and page guards, and a B+tree index on top. This project
models all four and proves that each presents to the layer above what that layer relies on:

- **Disk** (`Disk.dfy`, `DiskRuns.dfy`, `DiskManager.dfy`). Page offsets tile the file: the slots of the pages and
  the free slots are exactly the first slots of the file, each once. So over every run a page reads as its last
  write, and the file is no larger than it has to be.
- **Scheduler** (`Scheduler.dfy`, `DiskScheduler.dfy`). However clients and the worker interleave, the disk
  and the answers are those of handling the requests one at a time in queue order.
- **Replacer** (`Arc.dfy`, `ArcEffects.dfy`, `ArcReplacer.dfy`). Four lists, their bounds, recency order, who is
  evicted, how far the target moves, and what the ghosts tell of past evictions.
- **Pool** (`Pool*.dfy`, `BufferPool.dfy`). Page table, free list, frames, replacer and disk agree over every
  run (`PoolRuns.dfy`), whatever is evicted; what each step does to pins, marks, dirty flags and table is said in
  plain terms (`PoolEffects.dfy`), and that the replacer is used as it is made to be (`PoolReplacer.dfy`). Exactly which steps and runs are those of a plain map from page ids
  to bytes, and keep clean frames equal to the disk (`PoolRefinement.dfy`), keep evictable frames of the MRU list
  unpinned (`PoolMarks.dfy`), and keep pins counting guards (`PoolCareful.dfy`); and runs in which each of these
  goes wrong (`PoolExamples.dfy`). `PoolReturn.dfy` follows a longer run through the replacer.
- **B+tree** (`Codec.dfy`, `CodecBytes.dfy`, `PageStore.dfy`, `BTree*.dfy`). Over page images, through the byte codec: insert
  adds one entry and keeps the tree's invariant, duplicates included; find is sound and complete; scan yields
  a sorted suffix; and so over any number of inserts into a new tree (`BTreeRuns.dfy`). `PooledStore.dfy` ties
  the page store the tree runs on to the pool.

What the program changes in place is a class here (`BTree`, `Scan`, `ArcReplacer`, `BufferPoolManager`,
`FrameHeader`, `DiskManager`, `DiskScheduler`), node encoding works on arrays, and every method is proved
against a function of the old state; invariants and theorems about whole runs are lemmas about those
functions. A Rust panic is a value (`Panic`), and its exact condition is stated. Arithmetic overflow panics,
as in a debug build, except for `fetch_add` and `fetch_sub` on a pin count, which wrap around.

`dafny verify dfyconfig.toml` checks the whole project.

## Where the code differs from its documentation

The model follows the code.

- A victim is written to disk on every eviction, not only if it is dirty (`README.md:72`, `src/buffer_pool.rs:163-172`).
- A frame with pins can be evicted (`README.md:50`, `README.md:60`): making a guard for a resident frame does not
  take back its evictable mark (`src/guard.rs:29-30`). `PoolMarks.PinnedVictimExactly` says exactly when, in any
  state, and `PoolExamples.PinnedFrameEvicted` gives a run. By itself that changes no page's bytes; it leaves a
  guard stale (`PoolCareful.StaleExactly`). What follows from a stale guard:
  - A write through it lands in another page. A write goes to the guard's own page if and only if the guard is
    not stale (`PoolRefinement.WriteExactly`); `PoolExamples.StaleGuardCorrupts` is a run that destroys a page.
  - A flush of it can put another page's bytes on disk, and can wipe the dirty flag of a page that is not on disk,
    so that a write is lost. `PoolRefinement.FlushExactly` says exactly when it changes what is read,
    `PoolRefinement.FlushCleanExactly` exactly when it leaves a clean frame that is not what the disk holds, and
    `PoolExamples.StaleFlushLoses` is a run in which that happens.
  - Dropping it takes a pin of another page, so that dropping that page's guard can wrap the pin count around.
    `PoolMarks.ApplyMru` says exactly when an evictable frame of the MRU list gets pins, and
    `PoolExamples.StaleReleaseWraps` is a run that leads there. Until then only frames of the MFU list are evicted
    with pins (`PoolMarks.PinnedVictimOfMfu`).
- A hit in the MFU ghost list can make `mru_target_size - 1` underflow (`src/arc_replacer.rs:83`);
  `ArcEffects.AccessPanics` and `PoolEffects.FetchPanics` say exactly when, and `PoolExamples.TargetUnderflowReached`
  gives a run of ordinary use that ends there. `PoolReturn.GhostReturns` is a run with such a hit that does not.
- Reading a page that was never written takes a free slot and loses it (`src/disk_manager.rs:112-120`);
  `Disk.StrayRead` says exactly when that breaks the tiling, and `Disk.StrayReadCorrupts` that it then always ends
  with one page destroying another, once the free slots are used up.
- With duplicate keys a scan can start after the first entry with its key; `BTreeQueries.ScanMisses` says exactly when,
  and `BTreeRuns.DuplicateSkipped` is a run of two inserts that leads there.
- On a tree without entries `find` and `scan` panic rather than find nothing.
- Nodes are encoded with the default maximum sizes, whatever sizes the tree was given (`src/b_plus_tree.rs:127`, `src/b_plus_tree.rs:188`).

## Model

| member | source | states |
|---|---|---|
| Codec.KeyRoundTrip | src/b_plus_tree.rs:107-132 | every i64 key, negative ones included, survives its eight little-endian bytes |
| Codec.LeafRoundTrip | src/b_plus_tree.rs:92-137 | a leaf of up to 511 entries written over any stale page reads back as that leaf, and its type byte says leaf |
| Codec.InternalRoundTrip | src/b_plus_tree.rs:166-199 | the same for internal nodes of up to 681 entries |
| CodecBytes.LeafHeaderBytes | src/b_plus_tree.rs:122-127 | bytes 0 to 15 of an encoded leaf as numbers: 1, three bytes left alone, the count, 511, the next page |
| CodecBytes.LeafEntryBytes | src/b_plus_tree.rs:129-135 | entry i of a leaf is its key, page and slot at 16 + 16 i, digits of 256, least significant first; a negative key has 2^64 added |
| CodecBytes.LeafRest | src/b_plus_tree.rs:122-137 | past its last entry an encoded leaf leaves the page as it was |
| CodecBytes.InternalHeaderBytes | src/b_plus_tree.rs:184-191 | bytes 0 to 15 of an encoded internal node: 0, three bytes left alone, the count, 681, four bytes left alone |
| CodecBytes.InternalEntryBytes | src/b_plus_tree.rs:193-198 | entry i of an internal node is its key and child at 16 + 12 i |
| CodecBytes.InternalRest | src/b_plus_tree.rs:184-199 | past its last entry an encoded internal node leaves the page as it was |
| Codec.EncodeLeaf | src/b_plus_tree.rs:122-137 | encoding in place writes the leaf's page image, inside the page, for every node of legal size |
| Codec.EncodeInternal | src/b_plus_tree.rs:184-199 | the same for internal nodes |
| Codec.DecodeLeaf | src/b_plus_tree.rs:92-120 | any page is decoded, whatever its type byte, entry by entry; it panics exactly if the stored count runs past the page |
| Codec.DecodeInternal | src/b_plus_tree.rs:166-181 | the same for internal nodes |
| Codec.FindKv | src/b_plus_tree.rs:139-160 | binary search in a sorted leaf finds an entry with the key if and only if there is one |
| Codec.FindChildIndex | src/b_plus_tree.rs:201-216 | binary search finds the last child whose key is at most the one sought; it panics exactly if there is none |
| PageStore.PageStore.NewPage | src/buffer_pool.rs:56-70 | ids handed out were never used, and the new page is all zeros |
| PageStore.PageStore.WriteLeaf | src/b_plus_tree.rs:458-463 | encoding a leaf into a page changes what that page says as a node, and no other page |
| PageStore.PageStore.WriteInternal | src/b_plus_tree.rs:488-510 | the same for internal nodes |
| PageStore.PageStore.WriteRootPageId | src/b_plus_tree.rs:246-248 | bytes 0..4 of the header page say the root afterwards; no other page changes |
| PageStore.PageStore.ReadNode | src/b_plus_tree.rs:261-278 | the type byte and the matching decoder give the node the page stands for |
| BTreeShape.LeafLevelSorted | src/b_plus_tree.rs:419-463 | the leaf bounds and the entries of all leaves are in order |
| BTreeShape.LevelsSorted | src/b_plus_tree.rs:482-513 | the bounds of every level ascend, duplicates allowed |
| BTreeShape.NodeSorted | src/b_plus_tree.rs:484-485 | the separators inside every internal node ascend, so binary search applies |
| BTreeShape.InOrderIsLeafLevel | src/b_plus_tree.rs:71-88 | the in-order traversal from the root meets exactly the entries of the leaf level in order |
| BTreeShape.DescendStep | src/b_plus_tree.rs:270-273 | following the child that binary search picks leads to the slot of the next level that covers the key |
| BTreeInsertion.GrowStep | src/b_plus_tree.rs:484-490 | a parent with room that takes the pending separator restores the whole tree invariant and moves no entry |
| BTreeInsertion.SplitStep | src/b_plus_tree.rs:492-513 | a parent that splits passes the hole one level up: everything else of the invariant holds and no entry moves |
| BTreeInsertion.RootStep | src/b_plus_tree.rs:516-531 | a new root over two halves restores the whole invariant, one level taller |
| BTreeLeaves.LeafGrowStep | src/b_plus_tree.rs:419-427 | an entry put into a leaf with room keeps the invariant and adds exactly that entry |
| BTreeLeaves.LeafSplitStep | src/b_plus_tree.rs:437-469 | a leaf split keeps order, links and occupancy, adds exactly that entry, and leaves one separator pending |
| BTreePath.PathStep | src/b_plus_tree.rs:363-373 | the descent always stands on the path of the key |
| BTreePath.HeldStep | src/b_plus_tree.rs:386-408 | the guards held are a contiguous stretch of the path whose top is the root or has room and whose rest is full |
| BTreePath.LeftPosition | src/b_plus_tree.rs:484-484 | the child that split is listed in its parent, once, where the separator belongs: `position` never fails |
| BTreePath.AtParent | src/b_plus_tree.rs:471-480 | the frame popped is the parent of the node that just split |
| BTreeClimb.ClimbEnds | src/b_plus_tree.rs:487-490 | where the upward loop stops, the tree is whole again |
| BTreeClimb.ClimbGoesOn | src/b_plus_tree.rs:492-513 | after a split the loop goes on with the next frame, one level up |
| BTreeClimb.ClimbToRoot | src/b_plus_tree.rs:516-538 | with the stack empty the node that split was the root, every node of the path was full, and the new root completes the tree |
| BTreeClimb.InsertOutcome | src/b_plus_tree.rs:386-541 | the tree grows taller if and only if the whole path was full; nodes outside the full lower stretch of the path are not rewritten, so the guards released early were not needed; exactly one page is taken for each node of that stretch and one for a new root |
| BTree.PushAndSort | src/b_plus_tree.rs:419-420 | push and sort give a sorted permutation of the old entries and the new one |
| BTree.Position | src/b_plus_tree.rs:484-484 | the first entry with the child, or none if there is none |
| BTree.BTree.constructor | src/b_plus_tree.rs:221-232 | a new tree is valid and empty, and has taken one page, the header |
| BTree.BTree.Descend | src/b_plus_tree.rs:328-411 | the stack left by the descent is the needed part of the path of the key |
| BTree.BTree.WithSeparator | src/b_plus_tree.rs:480-485 | the separator goes right after the child that split |
| BTree.BTree.SplitParent | src/b_plus_tree.rs:492-512 | the lower half stays, the upper half moves to a new page, the middle key goes up |
| BTree.BTree.SplitLeafPage | src/b_plus_tree.rs:432-464 | the lower half stays and links to a new page with the upper half and the old link |
| BTree.BTree.InsertIntoLeaf | src/b_plus_tree.rs:413-469 | the entry goes in, and the leaf splits if and only if it would hold too many |
| BTree.BTree.InsertIntoParent | src/b_plus_tree.rs:473-514 | one turn of the upward loop either ends it with a whole tree or leaves the hole one level up |
| BTree.BTree.Propagate | src/b_plus_tree.rs:471-541 | the upward loop ends with a whole tree, and memory and header page agree on its root |
| BTree.BTree.GrowRoot | src/b_plus_tree.rs:516-539 | the new root has the two halves as children and is recorded in memory and in the header page |
| BTree.BTree.InsertFirst | src/b_plus_tree.rs:297-323 | the first insert makes a leaf the root and records it in the header page, and takes one page |
| BTree.BTree.Insert | src/b_plus_tree.rs:295-544 | exactly one entry is added and none lost, the whole invariant holds, no page is lost, the tree grows exactly on a full path, only nodes under which the path was full, and the header on growth, are rewritten, and exactly as many pages are taken as nodes split, and a root |
| BTree.BTree.FindLeaf | src/b_plus_tree.rs:250-281 | the walk ends at the leaf that covers the key; it panics exactly before the first insert |
| BTree.BTree.Find | src/b_plus_tree.rs:283-293 | an entry with the key is returned if and only if one is in the tree, with duplicates too |
| BTree.Scan.Next | src/b_plus_tree.rs:74-87 | each call yields the next leaf of what remains, and ends exactly when nothing remains |
| BTree.NewScan | src/b_plus_tree.rs:546-551 | a scan is a sorted suffix of the tree's entries, and what it skips has keys of at most the one asked for; with distinct keys it skips only smaller ones |
| BTreeQueries.SuffixSorted | src/b_plus_tree.rs:71-88 | what a scan yields is globally sorted |
| BTreeQueries.LeafOfKey | src/b_plus_tree.rs:250-281 | entries before the leaf of a key are at most the key, entries after it are above it |
| BTreeQueries.FindIsComplete | src/b_plus_tree.rs:283-293 | an entry anywhere in the tree has a fellow with its key in the leaf the descent reaches |
| BTreeQueries.ScanMisses | src/b_plus_tree.rs:546-551 | a scan misses an entry with its own key if and only if the leaf before its first ends with that key |
| BTreeQueries.ScanComplete | src/b_plus_tree.rs:546-551 | with distinct keys every entry at the key asked for or above is in the scan |
| BTreeQueries.SecondOfTwo | src/b_plus_tree.rs:546-551 | where leaves hold one entry, a scan for a key two entries have starts at the second |
| BTreeQueries.ChainIsLeafLevel | src/b_plus_tree.rs:451-463 | the links from any leaf on visit exactly the leaves to its right in order, and end at the invalid id |
| BTreeQueries.ChainUnique | src/b_plus_tree.rs:71-88 | there is no other chain, so following links ends and never cycles |
| BTreeQueries.SlotFirstKey | src/b_plus_tree.rs:492-498 | the separator of a child is the smallest key below it, all the way down |
| BTreeQueries.SeparatorsBound | src/b_plus_tree.rs:484-498 | a separator equals the smallest key on its right and is at least every key on its left, inside every node |
| BTreeQueries.OneParent | src/b_plus_tree.rs:484-538 | every page but the root is listed by exactly one parent in exactly one place |
| BTreeQueries.WidthAtLeast | src/b_plus_tree.rs:487-531 | each level is at least half an internal node times as wide as the one above |
| BTreeQueries.HeightBound | src/b_plus_tree.rs:422-531 | a tree of h internal levels holds at least 2 * half^(h-1) half-full leaves of entries |
| BTreeRuns.PagesPerEntry | src/b_plus_tree.rs:422-531 | a tree takes fewer than two pages an entry and is no higher than it has entries, if internal nodes have room for three children |
| BTreeRuns.InsertAll | src/b_plus_tree.rs:295-544 | a run of inserts adds exactly the entries given, each once; page ids last for it if n*h + n(n+1)/2 of them are left for n inserts and height h, or, where internal nodes have room for three, if there are three for every entry |
| BTreeRuns.Build | src/b_plus_tree.rs:221-544 | inserts into a new tree leave exactly the entries given, duplicates included, in the order of their keys |
| BTreeRuns.Collect | src/b_plus_tree.rs:71-88 | calling `next` until it answers `None` ends, and gives exactly what remained |
| BTreeRuns.ScanFrom | src/b_plus_tree.rs:546-551 | a scan followed to its end gives the last entries of the tree in order: all above the key and, with distinct keys, the one at it |
| BTreeRuns.ScanOfTwo | src/b_plus_tree.rs:546-551 | any tree with one-entry leaves and two entries under one key: a scan for that key gives one of them only |
| BTreeRuns.DuplicateSkipped | src/b_plus_tree.rs:546-551 | a run of two inserts from a new tree that leads to such a scan |
| ArcEffects.TargetMoves | src/arc_replacer.rs:66-93 | when an access moves the target, in which direction, and by exactly how much; all others leave it alone |
| ArcEffects.AccessPanics | src/arc_replacer.rs:66-116 | an access of an MFU ghost fails if and only if these are no fewer than the MRU ghosts and the target is zero; with up to 2^30 frames no other access fails |
| ArcEffects.AccessMoves | src/arc_replacer.rs:54-117 | an access changes no mark and no counter, and takes at most the page accessed or the last ghost off a ghost list |
| ArcEffects.EvictMoves | src/arc_replacer.rs:119-185 | the victim's page goes in front of the ghosts of the list it was on; the other ghosts, the other list and the target stay |
| ArcEffects.GhostsTellAlways | src/arc_replacer.rs:54-185 | over every run, the ghosts of a list are pages whose last eviction was from that list, ordered by it |
| ArcEffects.ForgottenIsOldest | src/arc_replacer.rs:96-109 | a ghost forgotten though its page was not accessed was evicted before every other ghost of its list |
| ArcEffects.SizeCounts | src/arc_replacer.rs:49-185 | over every run, the size counter is the number of marks set less the number of evictions |
| Arc.RecordMiss | src/arc_replacer.rs:66-116 | an access of a page not resident panics exactly where the 32-bit arithmetic of the target fails; otherwise the entry goes in front of one list and leaves the ghosts |
| Arc.RecordMissBounded | src/arc_replacer.rs:96-116 | with a frame to spare, the ARC bounds are kept and the fall-through that would lose the access is not reached |
| Arc.RaiseSucceeds | src/arc_replacer.rs:66-75 | with up to 2^30 frames no conversion or addition on an MRU ghost hit fails |
| Arc.RecordKeeps | src/arc_replacer.rs:54-117 | every access the pool can report keeps the invariant: no page in two lists, the bounds, recency order, one stamp per resident |
| Arc.RecordAccesses | src/arc_replacer.rs:54-117 | marks do not change; only a first access puts an entry on the MRU list, a second takes it off for good |
| Arc.RecordPlaces | src/arc_replacer.rs:58-116 | after an access the entry is first on the MFU list if its page is resident or remembered as a ghost, else first on the MRU list |
| Arc.RecordForgets | src/arc_replacer.rs:77-116 | a ghost is dropped only when its page is accessed, or as the oldest of its list when the bound is reached |
| Arc.EvictedReturns | src/arc_replacer.rs:66-185 | a page evicted and loaded again comes back on the MFU list |
| Arc.MarkKeeps | src/arc_replacer.rs:49-52 | marking a resident frame keeps the invariant |
| Arc.VictimExists | src/arc_replacer.rs:119-141 | eviction finds a victim if and only if some frame is marked, and then `curr_size` does not underflow |
| Arc.VictimIsOldest | src/arc_replacer.rs:119-185 | the victim is the least recently accessed marked entry of its list, and when which list gives way |
| Arc.EvictKeeps | src/arc_replacer.rs:119-185 | eviction keeps the invariant and removes exactly the victim |
| Arc.MarksAreEvictions | src/arc_replacer.rs:45-185 | the number of evictions in a row that find a victim is the number of marked frames, and at most the number of residents |
| ArcReplacer.ArcReplacer.Size | src/arc_replacer.rs:45-47 | how many evictions in a row would find a victim; no more than there are residents |
| ArcReplacer.ArcReplacer.SetEvictable | src/arc_replacer.rs:49-52 | the new state; where the frame is a resident's, one more eviction in a row will succeed, unless it was marked already |
| ArcReplacer.ArcReplacer.RecordAccess | src/arc_replacer.rs:54-117 | the new state of an access, or a panic, is that of the specification |
| ArcReplacer.ArcReplacer.Evict | src/arc_replacer.rs:119-141 | the victim and the new state are those of the specification |
| ArcReplacer.ArcReplacer.EvictFromMfuGhost | src/arc_replacer.rs:143-163 | the last marked entry of the MFU list becomes a ghost, or nothing changes if there is none |
| ArcReplacer.ArcReplacer.EvictFromMruGhost | src/arc_replacer.rs:165-185 | the same for the MRU list |
| Disk.NewDiskOk | src/disk_manager.rs:34-62 | a fresh disk manager is in order and holds no page, whatever the file held; it has room for 16 pages and a file of 139264 bytes |
| Disk.GrownKeeps | src/disk_manager.rs:83-86 | growth keeps every byte and always leaves room for one slot more |
| Disk.WriteGrows | src/disk_manager.rs:64-103 | the file grows only for a new page when no slot is free and one slot or none of the capacity would be left, and then the capacity doubles |
| Disk.PickedSlot | src/disk_manager.rs:66-92 | recording the slot picked for a new page keeps the tiling: it is inside the file and nobody else's |
| Disk.PageInFile | src/disk_manager.rs:134-156 | every page lies wholly inside the file, so a read of it hits neither the end of file nor the bounds panic |
| Disk.WriteStores | src/disk_manager.rs:64-103 | a write never fails on a whole page, keeps the tiling, and changes exactly that page |
| Disk.ShortPanics | src/disk_manager.rs:64-161 | on a disk in order reads and writes panic exactly at less than a page of bytes |
| Disk.ReadReturns | src/disk_manager.rs:105-161 | a read of a page held returns its last write and changes nothing |
| Disk.DeleteRemoves | src/disk_manager.rs:163-177 | a delete keeps the tiling and removes exactly that page |
| Disk.DeletedSlotReused | src/disk_manager.rs:71-81 | the slot of a deleted page goes to the next new page, the other free slots stay, and the file does not grow for it |
| Disk.StrayRead | src/disk_manager.rs:111-131 | a read of a page never written keeps the tiling if and only if no slot was free or the last slot of all was on top of the free stack |
| Disk.StrayReadBytes | src/disk_manager.rs:111-153 | such a read returns what is in the slot freed last, or in the slot after the pages |
| Disk.StrayReadCorrupts | src/disk_manager.rs:111-131 | after any such read that breaks the tiling, once as many new pages are written as there were free slots, the last of them shares its slot with another page and has destroyed it |
| Disk.StrayReadReachable | src/disk_manager.rs:64-177 | two ordinary writes and a delete lead to a disk on which such a read breaks the tiling |
| DiskRuns.RunIsMap | src/disk_manager.rs:34-177 | over every run of writes, deletes and reads of pages that are there, no operation fails, the disk is a plain map from pages to bytes, and its capacity is 16 or at most twice the slots handed out |
| DiskManager.DiskManager.constructor | src/disk_manager.rs:34-62 | a new disk manager is the empty disk |
| DiskManager.DiskManager.OffsetOf | src/disk_manager.rs:66-92 | the offset and the new state are those of the specification |
| DiskManager.DiskManager.WritePage | src/disk_manager.rs:64-103 | the file holds the page afterwards and every other page as before |
| DiskManager.DiskManager.ReadPage | src/disk_manager.rs:105-161 | the buffer holds the page's last write; a page held is always read |
| DiskManager.DiskManager.DeletePage | src/disk_manager.rs:163-177 | exactly that page is gone |
| Scheduler.FirstInFirstOut | src/disk_scheduler.rs:40-65 | over every interleaving, what was taken and what still waits are what was accepted, in order |
| Scheduler.WorkerServes | src/disk_scheduler.rs:40-65 | the worker is where handling the taken messages one at a time leads |
| Scheduler.StopIsLast | src/disk_scheduler.rs:40-65 | nothing is handled after a stop message |
| Scheduler.AnsweredInOrder | src/disk_scheduler.rs:43-62 | each request is answered exactly once, in queue order, on its own channel, with the result of the direct call |
| Scheduler.DropDrains | src/disk_scheduler.rs:78-86 | when the worker has stopped, every request sent before the drop has been handled |
| Scheduler.PerformRefines | src/disk_scheduler.rs:43-62 | one request on a disk in order is one operation on a plain map of pages |
| Scheduler.CrashesExactly | src/disk_scheduler.rs:43-62 | on a disk in order the worker's thread dies exactly at a read or write of less than a page |
| Scheduler.TakenAre | src/disk_scheduler.rs:40-65 | what was taken is the first requests accepted, and perhaps the first stop message after all those before it |
| Scheduler.AnyInterleaving | src/disk_scheduler.rs:40-86 | at every moment of every interleaving, stop messages included, disk and answers are those of a plain map for the requests taken so far; once stopped, these are all those accepted before the first stop |
| Scheduler.OneCall | src/disk_scheduler.rs:40-75 | a request sent to an idle worker and handled is the operation on the plain map |
| DiskScheduler.DiskScheduler.Schedule | src/disk_scheduler.rs:73-75 | the request is queued last; sending fails exactly once the worker has left its loop |
| DiskScheduler.DiskScheduler.Turn | src/disk_scheduler.rs:40-64 | one turn of the worker's loop is one step of the specification |
| DiskScheduler.DiskScheduler.Call | src/buffer_pool.rs:121-130 | a client alone with the queue gets what a direct call on the plain map gives |
| DiskScheduler.DiskScheduler.Drop | src/disk_scheduler.rs:78-86 | dropping handles everything queued, then stops; after the worker has left its loop it changes nothing |
| Pool.TableLoad | src/buffer_pool.rs:118-136 | taking the last free frame for a page keeps frames partitioned between free list and page table |
| Pool.ArcLoad | src/buffer_pool.rs:118-143 | a load is an access the replacer's bounds allow for, and it is tracked from then on |
| Pool.EvictPanics | src/buffer_pool.rs:151-151 | `evict().unwrap()` fails if and only if no frame is marked evictable |
| Pool.EvictIs | src/buffer_pool.rs:148-175 | the page found in the table for the victim's frame is the victim's page, so the search never fails |
| Pool.EvictView | src/buffer_pool.rs:148-175 | an eviction changes no page's bytes |
| Pool.FetchSound | src/buffer_pool.rs:99-208 | exactly when making a guard panics, and that otherwise table, free list, replacer and disk agree |
| Pool.FetchView | src/buffer_pool.rs:99-208 | making a guard changes no page's bytes, and the guard shows the last bytes written to its page |
| PoolEffects.FetchPanics | src/buffer_pool.rs:99-208 | with up to 2^30 frames, making a guard fails if and only if the page is not resident and no frame is free or evictable, or the page is an MFU ghost, the target is zero, and the MFU ghosts are no fewer than the MRU ghosts, the victim counted |
| PoolEffects.FetchEffect | src/buffer_pool.rs:99-208 | which frame a guard is made in, and all that changes: one pin more on a hit, else one pin on a clean frame with the page's bytes; the victim alone leaves the table and loses its mark |
| PoolEffects.ApplyAfter | src/buffer_pool.rs:56-360 | what each step does: exactly guards made and dropped move pins, exactly writes make frames dirty and flushes and loads clean them, exactly dropping a frame's last pin marks it and being the victim unmarks it |
| PoolEffects.AfterAlways | src/buffer_pool.rs:26-360 | the same at every step of every run of a new pool, whatever is evicted |
| PoolEffects.MarkedWasUnpinned | src/guard.rs:79-92 | over every run, a marked frame has had no pin at some moment since its page came into it |
| PoolReplacer.GhostsTellInPool | src/buffer_pool.rs:56-360 | at every moment of every run of the pool its replacer is where a run of admissible operations leads, so ghosts and counter mean there what they do over those runs |
| PoolReturn.GhostReturns | src/arc_replacer.rs:82-93 | a run of two frames in which a page hit among the MFU ghosts with target zero gets a guard, because the MRU ghosts are more |
| PoolPins.FetchTended | src/buffer_pool.rs:210-316 | making a guard, whatever is evicted for it, leaves every resident frame without pins evictable |
| PoolPins.FetchClean | src/buffer_pool.rs:210-316 | a clean frame stays what the disk holds, whatever is loaded or evicted |
| PoolPins.FetchCounted | src/buffer_pool.rs:210-316 | pins keep counting guards if no pinned frame is evicted |
| PoolPins.GuardShows | src/guard.rs:70-72 | where pins count guards, a live guard's page is resident, pinned, and shows its last write |
| PoolRuns.NewPageSound | src/buffer_pool.rs:56-70 | a new page has an id never used and is all zeros; nothing else changes |
| PoolRuns.UnpinAgrees | src/guard.rs:79-92 | dropping any guard, stale or not, changes no page's bytes and leaves every unpinned resident frame evictable |
| PoolRuns.ApplyAgrees | src/buffer_pool.rs:56-360 | every step, whatever it evicts, keeps the agreement of all components; only making a guard can panic, and exactly when |
| PoolRuns.AgreedAlways | src/buffer_pool.rs:56-360 | from a state where they agree, the components agree at every state of every run, by induction over its steps |
| PoolRuns.NewPoolOk | src/buffer_pool.rs:26-54 | a new pool is in order and shows no page |
| PoolRuns.NewPoolAgreesAlways | src/buffer_pool.rs:26-360 | the components of a new pool agree at every state of every run |
| PoolRuns.UnpinnedIsEvictable | src/guard.rs:79-92 | at every state of every run, evictions of pinned frames included, a resident frame without pins is evictable |
| PoolRuns.FindsFrame | src/buffer_pool.rs:151-151 | at every state of every run, if no frame is free and some frame is unpinned, eviction succeeds |
| PoolRefinement.WriteExactly | src/guard.rs:65-68 | a write through a guard changes exactly its own page, for every data, if and only if its page is still in its frame |
| PoolRefinement.StaleWrite | src/guard.rs:65-68 | a write through a stale guard lands in the page that has the frame now |
| PoolRefinement.WriteReaches | src/guard.rs:65-68 | writing given bytes is a write to the guard's page if and only if the guard is not stale or the bytes are in both places already |
| PoolRefinement.FlushExactly | src/guard.rs:42-63 | a flush changes no page's bytes if and only if the frame is clean, the guard's page is resident, or the disk has the bytes already |
| PoolRefinement.ApplyRefines | src/buffer_pool.rs:56-360 | each step is its effect on a plain map if and only if it reaches no other page through a stale guard; evictions of pinned frames have none |
| PoolRefinement.RunRefinesMap | src/buffer_pool.rs:56-360 | over every run without writes and flushes through stale guards that change another page, the pool is a plain map from pages to bytes |
| PoolRefinement.RefinesExactly | src/buffer_pool.rs:56-360 | and over no other run: the pool shows at every moment what the plain map holds exactly if every step is such |
| PoolRefinement.FlushPageKeeps | src/buffer_pool.rs:318-337 | flushing a resident page never fails, loses nothing, and leaves the page on disk as shown, even when it reports false |
| PoolRefinement.FlushedAll | src/buffer_pool.rs:339-360 | after flushing all pages, in any order, the disk holds the last bytes of every page |
| PoolRefinement.FlushCleanExactly | src/guard.rs:42-63 | flushing a guard leaves clean frames equal to the disk if and only if it is not stale, its frame is clean, or the disk has the bytes for the page in the frame, and for its own if that is clean |
| PoolRefinement.ApplyClean | src/buffer_pool.rs:56-360 | each step leaves clean frames equal to the disk if and only if it is not a flush of a guard for which that fails |
| PoolRefinement.CleanExactly | src/buffer_pool.rs:56-360 | over a run, a clean resident frame is at every moment what the disk holds exactly if every step is such |
| PoolMarks.ApplyMru | src/buffer_pool.rs:56-360 | each step keeps evictable frames of the MRU list unpinned, evictions of pinned frames included, if and only if it is not a drop of a guard on an MRU frame without pins |
| PoolMarks.MruExactly | src/buffer_pool.rs:56-360 | over a run, evictable frames of the MRU list are unpinned at every moment exactly if every step is such |
| PoolMarks.MruEvictableIffUnpinned | src/guard.rs:79-92 | over a run of a new pool, every entry of the MRU list is at every moment evictable if and only if its frame is unpinned, exactly if every step is such |
| PoolMarks.PinnedVictimExactly | src/arc_replacer.rs:119-185 | in any state, a pinned frame is evicted if and only if the last marked entry of the list that gives way has pins |
| PoolMarks.PinnedVictimOfMfu | src/arc_replacer.rs:119-185 | where evictable frames of the MRU list are unpinned, a pinned frame is evicted if and only if the MRU list is below its target or all pinned and the oldest marked MFU entry is pinned |
| PoolCareful.ApplyCounted | src/buffer_pool.rs:56-360 | each step keeps pins counting guards if and only if it evicts no pinned frame |
| PoolCareful.CountedAlways | src/buffer_pool.rs:56-360 | over every run that evicts no pinned frame, pins count guards and every guard is on its page |
| PoolCareful.CountedExactly | src/buffer_pool.rs:56-360 | and over no other run do pins count guards at every moment |
| PoolCareful.CacheRefinesMap | src/buffer_pool.rs:26-360 | over every such run of a new pool, with guards used in any way, the pool is a plain map from pages to bytes |
| PoolCareful.StaleExactly | src/guard.rs:22-40 | where no guard is stale, making a guard leaves one stale if and only if it evicts a pinned frame |
| PoolCareful.CarefulRunIsTidy | src/guard.rs:79-92 | over a run that evicts no pinned frame, no guard is dropped on a frame without pins |
| PoolExamples.PinnedFrameEvicted | src/guard.rs:29-30 | a run of four steps that evicts a pinned frame |
| PoolExamples.StaleGuardCorrupts | src/guard.rs:65-68 | a write through the stale guard destroys the page that took the frame |
| PoolExamples.StaleFlushLoses | src/guard.rs:42-63 | a run after which a page's last write is not on disk, its frame is clean, and flushing it does not help |
| PoolExamples.StaleReleaseWraps | src/guard.rs:79-92 | a run after which an evictable frame of the MRU list has a pin count that wrapped around |
| PoolExamples.TargetUnderflowReached | src/arc_replacer.rs:82-90 | a run of ordinary use that ends in the underflow of the target |
| BufferPool.BufferPoolManager.constructor | src/buffer_pool.rs:26-54 | the new pool is the empty pool of the specification |
| BufferPool.BufferPoolManager.NewPage | src/buffer_pool.rs:56-70 | the id and the new state are those of the specification |
| BufferPool.BufferPoolManager.LoadPage | src/buffer_pool.rs:118-136 | the page read from disk is in the last free frame and in the table |
| BufferPool.BufferPoolManager.ClearFrame | src/buffer_pool.rs:152-174 | the page's bytes are on disk, its frame is wiped and free |
| BufferPool.BufferPoolManager.EvictVictim | src/buffer_pool.rs:148-175 | the eviction is that of the specification |
| BufferPool.BufferPoolManager.MakeGuard | src/guard.rs:22-40 | one pin more, wrapping around, and the access recorded |
| BufferPool.BufferPoolManager.CheckPage | src/buffer_pool.rs:99-316 | hit, free frame and eviction paths give the state and the guard of the specification, or a panic |
| BufferPool.BufferPoolManager.FlushPage | src/buffer_pool.rs:318-337 | the state and the answer are those of the specification |
| BufferPool.BufferPoolManager.FlushAllPages | src/buffer_pool.rs:339-360 | every resident page is flushed, in the order the table is visited |
| BufferPool.PageGuard.Data | src/guard.rs:70-72 | the bytes shown are the last ones written to the guard's page |
| BufferPool.PageGuard.Write | src/guard.rs:65-68 | the frame holds the new bytes and is dirty |
| BufferPool.PageGuard.Flush | src/guard.rs:42-63 | the page is on disk and clean; whether it was dirty is reported |
| BufferPool.PageGuard.Drop | src/guard.rs:79-92 | one pin less, and the mark when it was the last |
| PooledStore.NewPagePresents | src/buffer_pool.rs:56-70 | a new page of the pool is a new page of the store the tree runs on |
| PooledStore.AcquirePresents | src/buffer_pool.rs:99-316 | a guard taken shows the store's page |
| PooledStore.WritePresents | src/guard.rs:65-92 | taking a guard, writing through it and dropping it is one write to the store, with other guards alive, stale ones too |
| PooledStore.FlushPresents | src/buffer_pool.rs:339-360 | after flushing all pages, in any order, the disk holds the pages of the store the tree runs on |

## Left out

- Pool-level deletion: `BufferPoolManager::delete_page` and `ArcReplacer::remove` are not modelled. `remove` returns early for an
  evictable frame (`src/arc_replacer.rs:189-191`), so replacer and page table do not agree afterwards. Deletion on disk is modelled.
- Threads, locks and latches: steps are sequential, and the scheduler's queue and worker are the only interleaving. Lock poisoning and
  memory ordering are not modelled.
- I/O errors: file operations succeed, so a worker always answers with data; `set_len` failures, which the program ignores, do not happen.
- `SystemTime` is a logical clock that ticks at every recorded access, so two accesses never carry the same time.
- Overflows out of reach of the other bounds: `curr_size` past 2^32 marks, file offsets past 2^64. Pin counts wrap at 2^64, with fewer than
  2^64 - 1 guards alive: each guard holds a counted reference to its frame, and that count aborts the program long before.
- The tree runs on an abstract page store, so exhausting the pool's ten frames with the guards of one long path is not modelled;
  `PooledStore` covers the pages, one operation at a time. Page-level dirty flags set while only descending do not appear.
- BTree.BTree.Insert: requires that there are ids for the pages it takes; when the program has counted up to 2^32 it hands out the invalid id
  and starts over. `BTreeRuns.InsertAll` says for how many inserts they last.
- BTree.BTree.constructor: the maximum sizes are fixed for the life of a tree, from 1 to 511 and from 2 to 681; the setters that change
  them later serve only the repository's own examples of use.
- BTree.PushAndSort: does not say which of several entries with one key comes first, as `sort_unstable_by_key` does not.
- BTree.NewScan: the scan borrows the tree for its life, so the tree does not change under it.
- ArcReplacer.ArcReplacer.RecordAccess: nothing is promised of the state after a panic.
- ArcReplacer.ArcReplacer.Evict: nothing is promised of the state after a panic.
- DiskScheduler.DiskScheduler.Turn: nothing is promised of the disk after an operation panics in the worker.
- BufferPool.BufferPoolManager.CheckPage: asks for a page that was handed out; the model of the disk below says what reading others does.
  Read and write guards are one type, since they differ only in `data_mut`; `is_valid` is true for as long as a guard exists and has no field.
- BufferPool.BufferPoolManager.constructor: takes a new disk manager, as the program does, since page ids start over at 0.
- Frame buffers are page values replaced whole, not arrays written byte by byte; the codec's writes into a page are modelled on arrays.
- `dirty_pages`, which nothing fills, the write and delete counters, printing, `main.rs`, and the deprecated node struct.
