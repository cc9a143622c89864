# LineFS, verified in Dafny

LineFS is a distributed file system whose clients write to an operation log. A kernel file system
(KernFS) *digests* a client's log: it applies the logged operations to inodes and to per-file extent
trees on persistent memory. Replicas of the log travel down a chain of nodes, and a digest request
travels down the same chain. The repository also carries the file benchmark that drives it, with its
own AVL trees and file sets.

This project models the parts of that code with the most state and branching, in the form the code
has: the extent tree and its block accounting, the coalescing of a log before it is digested, the
writing of log entries into blocks, the AVL tree with its parent links, the digest and replication
protocols of the chain, the CRC-32C table and the file set on top of the AVL tree. What the code
promises is proved for all inputs, all runs and all reachable states. Where the code does not meet the
property that one would expect, there is a concrete input that shows it and an if-and-only-if that
says exactly when it does.

## How the files fit together

| files | source |
|---|---|
| `ExtentSeq`, `LeafOps`, `ExtentTree`, `ExtentInsert`, `ExtentInsertProofs`, `ExtentTidy`, `ExtentRemove`, `ExtentWalk`, `ExtentSplit` | `kernfs/extents.c`, as values: runs of extents, trees of nodes, paths, what insertion and removal do to them, what merging leaves, and the cursors and counts of the removal walk |
| `ExtentSearch`, `ExtentFile`, `ExtentSpace`, `ExtentMap` | `kernfs/extents.c`, as loops and as a class `File` that is changed in place, each method tied to those values |
| `DigestModel`, `DigestProofs`, `DigestCorrect`, `DigestLayout`, `DigestReplay` | `kernfs/digest.c`: reference semantics and coalescing, what the list holds for the lives of an inode, exactly when the two agree for given data and for all data of a layout, and the replay list as a class |
| `DigestBlocks`, `DigestFiles` | `kernfs/digest.c`: the block loop on top of `ExtentMap.GetBlocks`, and runs of entries on blocks compared with the reference semantics |
| `AvlShape`, `AvlRotate`, `AvlUpdate`, `AvlTree`, `AvlSearch`, `AvlDestroy` | `bench/filebench/fb_avl.c` and `fb_avl.h`: linked nodes on the heap, with the shape that their fields form |
| `DigestChain`, `Replication` | `kernfs/fs.c` and `libfs/src/distributed/replication.c`: state machines over their steps |
| `Crc32c` | `kernfs/mlfs_crc32.c` |
| `Fileset` | `bench/filebench/fileset.c`, on top of `AvlSearch` |
| `Options`, `Numbers` | a value that may be missing; the larger of two numbers |

An extent tree is a value `Tree` whose index nodes hold the keys, the block numbers and the children.
`Flat(t)` is the run of all its extents in order, `Lookup` the mapping of a run, `Owns` how often it
owns a physical block. `Inv` says that the run is in order without overlaps and that all leaves are at
the same depth, every node fits its block, no node below the root is empty and every key is exact.
`Ledger` says that every block marked as used is held exactly once: by another file, by a tree node, as
data, or by an extent on its way in or out. `File.Valid` is both of these together with the count of
used blocks, so what every operation keeps holds over every run of operations. It also says that the
file's own blocks lie behind the first R ones, R being the capacity of the root: that keeps a block
number that the removal walk leaves at the root from being taken for a number of entries.

`NoPairs` says that no leaf holds two neighbours that could be merged, and `Finished` that merging is
done around a block: the extent there has no right neighbour in its leaf to merge with, no leaf holds
such a pair if none did before, and a single leaf that fits into the inode is in the inode.

`DigestLog` digests a log entry by entry on file contents; it is the reference that both the replay list
and the blocks are compared with. A *life* of an inode number is a stretch of its entries without an
unlink.

A position in an AVL tree is a zipper `Ctx` around a subtree; `View` reads the fields of the nodes, and
every field update is a statement about `View` before and after. `Tree.Valid` says that links, child
indices, stored balances and the node count are those of the tree's shape.

## Findings

- Allocating in front of the first extent of a file can overlap it, because the search for the next
  extent looks behind the first one (`ExtentMap.ClipMissesFirst`). `ExtentMap.ClipExact` gives the exact
  condition.
- An entry is digested as one write of its data, whatever the data is, if and only if it lies inside one
  block or consists of whole blocks, and its first block was mapped or its new physical block holds zeros
  around the data (`DigestFiles.DigestExact`). The log writer produces only entries of these two forms
  (libfs/src/log/log.c:888-936), so for its logs the second half is what matters: a byte written into a
  hole can uncover what the block held before (`DigestFiles.HoleShowsOldBytes`). No entry of another form
  is digested as one write (`DigestFiles.SpanningFails`, `DigestFiles.RaggedFails`).
- A snapshot that shrinks a file keeps the rest of its last block. The file reads as zeros when it grows
  again if and only if nothing was left there (`DigestFiles.SetSize`, `DigestFiles.CutShowsOldBytes`).
- Coalescing loses the end of a write that follows the last snapshot of a file that was written before
  its first snapshot (`DigestCorrect.UncoveredLosesTail`), keeps bytes that a shrinking snapshot cut off
  (`DigestCorrect.ShrinkingKeepsBytes`), and loses a file when the 16-bit version comes back to that of a
  file that was recorded and unlinked in the same log (`DigestCorrect.WrapLosesFile`).
  `DigestLayout.LayoutExact` gives the exact condition on lengths, offsets and recorded sizes under which
  every log of that layout is coalesced rightly, whatever its data is: no clash of versions, the length
  that the last snapshot and the ends of the writes give is the right one, and no position that a
  snapshot cut off is supplied again by an earlier write or by the old file.
  `DigestCorrect.CoalescingCorrect` refines it for given data, where such a position may be supplied with
  a zero, and `DigestCorrect.GrowingCorrect` says what is left of it when files only grow.
- An unlink unmaps one block less than a file has when its size is larger than a block and no multiple of
  it. The last block then stays allocated for good (`DigestFiles.UnlinkLeavesBlock`). All blocks are given
  back if and only if the size is below one block or a multiple of it, or the last block is a hole
  (`DigestFiles.UnlinkFile`).
- A creating request on an unwritten extent marks everything from the requested block to the end of the
  extent as written (`ExtentMap.ConversionSpills`). Marks outside the request stay if and only if nothing
  is created, the extent is written, or no more of it is left than was asked for
  (`ExtentMap.ConversionExact`).
- A pick in rotation moves its rotor past the entry where its search starts, not past the entry that it
  hands out (`Fileset.RotorStays`). The two are the same if and only if the start entry is idle
  (`Fileset.RotorExact`).
- The removal walk decides by a saved number of entries whether it goes on to the left, and at the root
  it compares with the block number that the search left there. It stops early when the two happen to be
  equal (`ExtentWalk.StaleStops`); `ExtentWalk.WalkExact` gives the exact condition. Files whose tree
  blocks lie behind the first R blocks never meet it (`ExtentSpace.RootGoesOn`).
- The test that holds a digest back reads the version of its start from the replica's record. A digest
  that ends with the last block of a version, before the sender has wrapped around, leaves the record in
  that version, and the next digest starts in the following one. If that one is not longer than the old
  version, its test passes whatever has arrived; if it is, the test passes as soon as its first blocks
  have arrived, up to its last one counted back by the length of the old version
  (`Replication.LatePasses`, `Replication.LateWitness`). The record is right again afterwards if and only
  if that digest ends in front of the old version's last block (`Replication.LateExact`).
- One log header that fills a whole version is digested without the record noticing the wrap
  (`Replication.OneHeaderFills`); `Replication.RecordExact` shows that it is the only such case.

## Model

| member | source | states |
|---|---|---|
| ExtentTree.FindIsNearest | kernfs/extents.c:887-977 | descending by keys and then by first blocks ends at the extent that a scan of all extents of the tree finds |
| ExtentSearch.BinsearchIdx | kernfs/extents.c:651-704 | the binary search returns the last index entry whose key is at most the block, or the first entry |
| ExtentSearch.Binsearch | kernfs/extents.c:712-760 | the binary search returns the last extent that starts at or before the block, or the first extent |
| ExtentSearch.FindExtent | kernfs/extents.c:887-977 | the walk reaches a leaf at full depth along the path that the keys define, also in a tree whose newest leaf is still empty, and its position is the nearest extent, or -1 in an empty leaf |
| ExtentSearch.NextLeafBlock | kernfs/extents.c:1651-1674 | going up the path finds the first block of the next leaf, if there is one |
| ExtentSearch.NextAllocatedBlock | kernfs/extents.c:1619-1645 | the answer is where the first extent behind the cursor starts, in this leaf or a later one, or EXT_MAX_BLOCKS when there is none |
| ExtentSearch.DetermineHole | kernfs/extents.c:2765-2791 | every block of the reported hole is unmapped, the hole contains the block asked for, it ends where the next extent starts, and it begins at the block asked for or where an extent ends |
| ExtentSearch.GapIsHole | kernfs/extents.c:2765-2791 | between two neighbouring extents of a sorted run nothing is mapped |
| ExtentInsert.NextLeafFollows | kernfs/extents.c:1651-1674 | the extents in front of the next leaf are exactly those up to the end of this leaf; without a next leaf nothing follows |
| ExtentInsert.FindNextLeaf | kernfs/extents.c:2003-2032 | searching for the key of the next leaf leads to the next leaf |
| ExtentInsert.AddSiblingBlocks | kernfs/extents.c:1054-1283 | a split stores one new leaf and one new index node per split level, in blocks of its own, and loses no node |
| ExtentSplit.FindLeft | kernfs/extents.c:1372-1432 | after a split, the search for a block in front of the new leaf still reaches the old leaf |
| ExtentSplit.FindRight | kernfs/extents.c:1372-1432 | after a split, the search for the block that the new leaf was made for reaches the new leaf |
| LeafOps.FoldIsInsert | kernfs/extents.c:1925-1995 | appending or prepending to a neighbour is inserting in order and merging with it |
| LeafOps.MergeExact | kernfs/extents.c:1734-1775 | two extents can be merged if and only if one valid extent can stand for both, mapping each block to where the two map it |
| LeafOps.TryToMergeDone | kernfs/extents.c:1871-1889 | after merging at an extent, the one that holds it cannot be merged with its right neighbour, and with its left one only if two extents in front of it could have been merged before |
| LeafOps.TryToMergeNoPair | kernfs/extents.c:1871-1889 | where only the extent merged at could be merged with a neighbour, no two neighbours of the leaf can be merged afterwards |
| LeafOps.TidyInContext | kernfs/extents.c:1785-1821 | merging neighbours inside a leaf keeps order, mapping and ownership of all extents of the tree |
| LeafOps.PunchLookup | kernfs/extents.c:2227-2362 | punching unmaps exactly start..end, and what is cut out is what these blocks were mapped to |
| LeafOps.PunchOwns | kernfs/extents.c:2154-2172 | every physical block is owned afterwards or was cut out, with the same count |
| ExtentFile.TryToMergeRight | kernfs/extents.c:1785-1821 | the loop stops where the extent cannot be merged with its right neighbour, and says whether it merged; order, mapping and ownership stay by `TidyInContext` |
| ExtentFile.MergeInLeaf | kernfs/extents.c:1871-1889 | left neighbour first, then right ones: if only the given extent could be merged, no two neighbours of the leaf can be merged afterwards; on the direct-I/O path nothing is merged |
| ExtentFile.StoreLeaf | kernfs/extents.c:1682-1732 | storing a leaf and correcting keys upward while the change is in front leaves every key exact |
| ExtentFile.FindRoom | kernfs/extents.c:1372-1400 | the level found is the lowest one with a free entry; none is found only if all are full |
| ExtentFile.SplitNodes | kernfs/extents.c:1054-1283 | the loop from the leaf upward builds the tree that the split is specified to give |
| ExtentFile.SplitTreeFor | kernfs/extents.c:1372-1432 | split, search again and insert: the tree is well formed again and maps the new extent in addition |
| ExtentFile.GrowFind | kernfs/extents.c:1293-1365 | after the root has moved one level down, the search for the new extent takes the old path below the new root |
| ExtentFile.File.NewBlocks | kernfs/extents.c:124-216 | a run of free blocks becomes used, and the count grows by its length |
| ExtentFile.File.FreeBlocks | kernfs/extents.c:260-318 | used blocks become free, and the count shrinks by as many |
| ExtentFile.File.TryToMergeUp | kernfs/extents.c:1827-1865 | a single leaf that fits into the inode moves there, its block is freed, and the mapping stays; without direct I/O no tree of one such leaf is left |
| ExtentFile.File.TryAbsorb | kernfs/extents.c:1925-1995 | an extent is absorbed if and only if it fits a neighbour: the mapping gains exactly its blocks, no block is allocated, and merging is done around it |
| ExtentFile.File.InsertInLeaf | kernfs/extents.c:2056-2112 | an extent put into a leaf with space: the mapping gains exactly its blocks, order, keys and accounting stay right |
| ExtentFile.File.InsertInNext | kernfs/extents.c:2003-2035 | an extent that belongs behind a full leaf goes in front of the next leaf, with the keys above corrected |
| ExtentFile.File.SplitAndInsert | kernfs/extents.c:1054-1283 | a multi-level split and the insertion keep the tree well formed and the accounting exact |
| ExtentFile.File.GrowInDepth | kernfs/extents.c:1293-1365 | the tree gets one level deeper, with one new block, and maps what it mapped |
| ExtentFile.File.CreateNewLeaf | kernfs/extents.c:1372-1432 | the loop ends with the extent inserted and merging done around it; the tree is one level deeper only if every node on the path was full |
| ExtentFile.File.InsertApart | kernfs/extents.c:2003-2112 | an extent that no neighbour absorbs goes into its leaf, the next one or a new one: no block is allocated and the tree does not grow if its leaf, or the next leaf for an extent behind the last one, has space |
| ExtentFile.File.InsertExtent | kernfs/extents.c:1897-2132 | through every route the mapping gains exactly the new extent, the tree stays well formed, every used block stays held exactly once; without direct I/O merging is done around the extent, and a file without mergeable neighbours stays one; nothing is allocated for an extent that is absorbed or finds space; on the direct-I/O path the extent is stored as it is, and the returned leaf is where a removal up to the block in front of it can start |
| ExtentRemove.RmKidsCorrect | kernfs/extents.c:2609-2686 | going over the children from right to left and stopping at the first one that survives leaves what punching every extent leaves; that the counts of the walk stop it there is `WalkIsRmPath` |
| ExtentRemove.RmPathCorrect | kernfs/extents.c:2609-2686 | the walk along the path and to its left leaves what punching all extents of the tree leaves, with exact keys and no empty node |
| ExtentRemove.RemoveCorrect | kernfs/extents.c:2514-2715 | the whole removal keeps the tree invariants, unmaps exactly start..end, and cuts out exactly what was mapped there |
| ExtentRemove.CursorDivides | kernfs/extents.c:2535-2597 | the leaf that the search for `end` reaches has only extents up to `end` to its left and only later ones to its right |
| ExtentSpace.RmExtent | kernfs/extents.c:2259-2318 | what stays of one extent and what is removed; an extent reaching across the end of the range is the error case |
| ExtentSpace.RmLeaf | kernfs/extents.c:2227-2362 | the loop from the last extent on leaves what punching the leaf leaves; it fails exactly when some extent reaches across the end |
| ExtentWalk.WalkIsRmPath | kernfs/extents.c:2497-2512 | the walk with an entry and a saved count for every level of the path goes on and stops where the survival of children says, when the count at the root is not a stale block number |
| ExtentWalk.WalkExact | kernfs/extents.c:2600-2607 | the walk leaves what it should if and only if the block number at the root is not the number of its entries, counted without the path's entry when the range holds everything below it, or no extent in front reaches into the range |
| ExtentWalk.StaleStops | kernfs/extents.c:2600-2607 | a root of two entries, one of them in block 2, for which the walk stops early and a block of the range stays mapped |
| ExtentSpace.StartLevels | kernfs/extents.c:2600-2607 | the loop writes over the block numbers of all levels but the root |
| ExtentSpace.WalkStep | kernfs/extents.c:2629-2694 | every step, into a node, over a leaf, on to the entry in front or up, keeps every used block held exactly once and leads to the same outcome, with less left to do |
| ExtentSpace.RmWalk | kernfs/extents.c:2600-2694 | the loop ends with the tree that the walk is specified to leave; data blocks and blocks of emptied nodes are freed on the way |
| ExtentSpace.RootGoesOn | kernfs/extents.c:2497-2512 | in a file whose own blocks lie behind the first R blocks the count at the root is never met, so the walk does what removal along the path specifies |
| ExtentSpace.SplitExtentAt | kernfs/extents.c:2385-2492 | only the marks of the two halves change: every block keeps its physical block, ownership and accounting stay, and without direct I/O merging is done around the split |
| ExtentSpace.MarkExtent | kernfs/extents.c:2409-2425 | the mark of a whole extent changes and nothing else; without direct I/O merging is done around it, and a file without mergeable neighbours stays one |
| ExtentSpace.FreeAll | kernfs/extents.c:2154-2172 | handing back the removed parts leaves every used block held exactly once |
| ExtentSpace.CutAt | kernfs/extents.c:2535-2597 | afterwards no extent reaches across `end`, the mapping is unchanged, and the removal can start at the returned leaf |
| ExtentSpace.RemoveFrom | kernfs/extents.c:2600-2706 | the walk leaves a valid file that has lost exactly start..end; a tree without entries becomes a leaf in the inode |
| ExtentSpace.RemoveSpace | kernfs/extents.c:2514-2715 | for every valid file: exactly start..end is unmapped, everything else keeps its mapping, and the blocks still marked as used are exactly those still held |
| ExtentMap.ClipExact | kernfs/extents.c:2975-2987 | clipping against the next extent keeps an allocation off every extent if and only if it starts behind some extent or ends before the first one |
| ExtentMap.WantIsLargest | kernfs/extents.c:2975-2987 | the allocator is asked for as many blocks as possible: one more would exceed the request, what one extent of its kind can hold, or the gap up to the next extent |
| ExtentMap.ClipMissesFirst | kernfs/extents.c:1619-1645 | a file and a request for which the clipped allocation overlaps the first extent |
| ExtentMap.UnmappedIsSafe | kernfs/extents.c:2915-2933 | after the range was unmapped, allocating it meets the condition |
| ExtentMap.DropBlocks | kernfs/extents.c:2915-2933 | a log-structured request on a covered block unmaps exactly the requested blocks, after which allocating them is safe; what was left of the extent is what it answers with later |
| ExtentMap.MapFound | kernfs/extents.c:2898-2952 | a covered block is answered with its physical block and the rest of the extent, up to the request; creating on an unwritten extent changes the marks of that rest and nothing else |
| ExtentMap.ConversionExact | kernfs/extents.c:2932-2946 | the marks outside the requested blocks stay if and only if nothing is created, the extent is written, or no more of it is left than was asked for |
| ExtentMap.ConversionSpills | kernfs/extents.c:2932-2946 | a request for one block that marks eight blocks as written |
| ExtentMap.MapHole | kernfs/extents.c:2955-2973 | a request that creates nothing reports unmapped blocks only, and all of them up to the next extent or the end of the request; its count is what was left of an extent that the request dropped |
| ExtentMap.MapNew | kernfs/extents.c:2975-3063 | the allocator is asked for the clipped request, and the n blocks that it returns, 1 <= n <= len, get mapped consecutively; no other mapping changes, and without direct I/O merging is done around them |
| ExtentMap.GetBlocks | kernfs/extents.c:2806-3063 | all of the above for one call: found, hole, created and log-structured replacement, with every invariant kept |
| DigestModel.CompileAt | kernfs/digest.c:298-613 | coalescing treats every inode as if it were alone in the log |
| DigestModel.ReplayAt | kernfs/digest.c:1539-1763 | replaying a list changes every inode as its own items do |
| DigestProofs.CompileShape | kernfs/digest.c:298-613 | for each inode the list holds what is left of a life that began before the log, and the items of the life that has not ended; every life in between has vanished, unless its version was that of a recorded old life |
| DigestCorrect.LifeBytes | kernfs/digest.c:200-296 | every byte and the length of a file after the entries of a life, digested one by one: what the writes alone leave, with zeros where a snapshot cut the file and no later write set it |
| DigestCorrect.LifeExact | kernfs/digest.c:1539-1763 | the items of one life do what its entries do if and only if the last recorded size and the ends of the writes give the right length, and what writes or the old file supply for a position that was cut off is zero |
| DigestCorrect.ClashLoses | kernfs/digest.c:298-613 | a life that has the version of a recorded old life never leaves its file: the inode is free, or its writes go to an inode that was unlinked |
| DigestCorrect.LifeCorrect | kernfs/digest.c:1539-1763 | in a life in which the file only grows, the items do what the entries do if and only if no write after the last snapshot is cut off |
| DigestCorrect.NodeExact | kernfs/digest.c:298-613 | the same for all lives of one inode number, across unlinks, reuse and any number of versions: if and only if the last life does not clash with a recorded old one and is covered |
| DigestCorrect.CoalescingCorrect | kernfs/digest.c:298-613 | for every file system and every log that creates only free numbers and otherwise concerns existing files, replaying the coalesced list gives the file system of digesting entry by entry if and only if every inode's last life does not clash and is covered |
| DigestLayout.NodeLayout | kernfs/digest.c:298-613 | for one inode, the list does what the entries do for every file of the same length and all data of the same offsets and sizes, if and only if the last life does not clash, its length is right, and no position that was cut off is supplied by a write or by the old file |
| DigestLayout.LayoutExact | kernfs/digest.c:298-613 | the same for whole file systems and logs: a condition on lengths, offsets and recorded sizes that holds if and only if coalescing is right for all data of that layout |
| DigestCorrect.GrowingCorrect | kernfs/digest.c:298-613 | when files only grow and no inode is created 65536 times, that is if and only if no write after a last snapshot is cut off, whatever the files hold |
| DigestCorrect.UncoveredLosesTail | kernfs/digest.c:298-613 | a log for which it does not |
| DigestCorrect.ShrinkingKeepsBytes | kernfs/digest.c:718-744 | a log with a snapshot of size 0, which unmaps all blocks, for which the list keeps bytes that the log cut off |
| DigestCorrect.WrapLosesFile | kernfs/digest.c:298-613 | a log with 65536 creations of one inode for which the 16-bit version wraps and a file is lost |
| DigestReplay.ReplayList.EraseFile | kernfs/digest.c:575-596 | the item for writes of one file leaves the list and its table, all others keep their place |
| DigestReplay.ReplayList.AddUnlink | kernfs/digest.c:506-599 | an inode created in the log vanishes from list and tables; an older one keeps its snapshot and gets an unlink item |
| DigestReplay.ReplayList.Add | kernfs/digest.c:298-613 | list, hash tables and version table after an entry are those that coalescing specifies |
| DigestReplay.ReplayList.AddLog | kernfs/digest.c:298-613 | the same for a whole log |
| DigestReplay.ReplayList.Digest | kernfs/digest.c:1539-1763 | applying the list, item by item, is its replay, and leaves it empty |
| DigestReplay.DigestEach | kernfs/digest.c:200-296 | the loop over the log is the reference semantics |
| DigestReplay.DigestCoalesced | kernfs/digest.c:298-613 | list built and applied in place: the file system ends up as if the entries had been digested one by one if and only if every inode's last life does not clash and is covered; a safe layout is enough |
| DigestBlocks.BlocksToWrite | kernfs/digest.c:970-998 | the blocks asked for end up mapped and written, in a run, and no other mapping changes |
| DigestBlocks.WriteBlocks | kernfs/digest.c:965-1137 | the loop ends and writes exactly the given blocks, however the extent tree fragments the range; those blocks are mapped afterwards, and otherwise those that were; no physical block changes that the file does not map at the end |
| DigestBlocks.WritePart | kernfs/digest.c:840-962 | one block gets the bytes of its part, around it what the file held or what the block that the allocator hands out still stores; every other block of the file stays, and every physical block that the file does not map |
| DigestBlocks.OthersUnmapped | kernfs/digest.c:965-1137 | blocks of other files are not mapped by this one, so no digest changes them |
| DigestFiles.WriteEntry | kernfs/digest.c:776-1143 | every byte of the file after the digest of any entry, the new size and a valid extent tree; under the condition of `DigestExact` the contents are those of the reference semantics, with zeros past the end; no physical block changes that the file does not map at the end |
| DigestFiles.DigestExact | kernfs/digest.c:776-1143 | the digest of an entry is one write of its data, whatever the data is, if and only if the entry lies inside one block or consists of whole blocks, and the block for its first part was mapped or is zero around it |
| DigestFiles.HoleShowsOldBytes | kernfs/digest.c:840-962 | one byte written at position 100 of a file without extents changes position 0 |
| DigestFiles.SpanningFails | kernfs/digest.c:638-651 | no unaligned entry that crosses a block boundary is digested as one write of its data, in any file |
| DigestFiles.RaggedFails | kernfs/digest.c:638-651 | no aligned entry longer than a block with a partial last block is digested as one write of its data, in any file |
| DigestFiles.SetSize | kernfs/digest.c:718-746 | a snapshot cuts the contents or fills them up with zeros, blocks behind the new last one are unmapped, and zeros follow the new end if and only if nothing was left behind it in the last block |
| DigestFiles.CutShowsOldBytes | kernfs/digest.c:718-746 | a file of two bytes that is cut and grows again keeps its second byte |
| DigestFiles.UnlinkFile | kernfs/digest.c:1145-1183 | an unlink unmaps from the first block on; for a file mapped only below its size, the used blocks are those of other files again if and only if the size is below a block or a multiple of it, or the last block is a hole |
| DigestFiles.UnlinkLeavesBlock | kernfs/digest.c:1145-1183 | a file of a block and a byte whose second block stays mapped |
| DigestFiles.DigestEntries | kernfs/digest.c:200-296 | over every run of writes and snapshots, the blocks hold what the reference semantics leaves if every entry is clean at its turn; which blocks are mapped and the size depend on the entries alone; no block of another file changes |
| DigestFiles.PlainIsClean | kernfs/digest.c:776-1143 | entries of whole blocks or parts of blocks that are mapped at their turn, and sizes that do not shrink the file, are clean whatever the device holds |
| DigestFiles.DigestOpsIsLog | kernfs/digest.c:200-296 | the reference for a run of one file is the digest of the whole log at its inode |
| AvlRotate.OnceRebalances | bench/filebench/fb_avl.c:320-376 | the field updates of a single rotation give a balanced subtree with the same nodes in the same order |
| AvlRotate.TwiceRebalances | bench/filebench/fb_avl.c:378-460 | the same for a double rotation, which always makes the subtree shorter |
| AvlTree.Tree.Rotation | bench/filebench/fb_avl.c:295-460 | links, child indices and balances after a rotation are those of the rotated tree, and the result says whether it got shorter |
| AvlTree.Tree.Regrow | bench/filebench/fb_avl.c:500-561 | climbing after an insertion restores every balance with at most one rotation |
| AvlTree.Tree.Insert | bench/filebench/fb_avl.c:474-561 | the order gains the node at the place searched for, the tree is balanced again, and there was at most one rotation |
| AvlTree.Tree.Reshrink | bench/filebench/fb_avl.c:750-805 | climbing after a removal restores every balance, over any number of rotations |
| AvlTree.Tree.Remove | bench/filebench/fb_avl.c:654-805 | the order loses exactly the node, every stored balance is the true height difference, no link leads to the temporary node, and the count is one less |
| AvlSearch.Find | bench/filebench/fb_avl.c:245-277 | the node with the key, or the empty place with all smaller keys before it and all larger keys after it |
| AvlSearch.Add | bench/filebench/fb_avl.c:615-628 | a node is added at its sorted place exactly when no node has its key |
| AvlSearch.Walk | bench/filebench/fb_avl.c:124-164 | the next or previous node of the in-order sequence, or none at its end |
| AvlSearch.End | bench/filebench/fb_avl.c:171-202 | the first or last node of the in-order sequence |
| AvlSearch.Nearest | bench/filebench/fb_avl.c:214-232 | the node before or after a place that a search found |
| AvlSearch.InsertHere | bench/filebench/fb_avl.c:576-609 | the node is inserted right before or right after the given one |
| AvlSearch.RemoveNode | bench/filebench/fb_avl.c:654-805 | removal of any node of a valid tree |
| AvlDestroy.FirstPlaceIs | bench/filebench/fb_avl.c:959-1065 | in a balanced tree the first node, children before parents, is a leaf |
| AvlDestroy.DestroyFirst | bench/filebench/fb_avl.c:959-1000 | the first call returns the first node of that order |
| AvlDestroy.DestroyNext | bench/filebench/fb_avl.c:1000-1065 | a later call unlinks the node returned last and returns the next one |
| AvlDestroy.DestroyAll | bench/filebench/fb_avl.c:959-1065 | repeated calls return every node once, children before parents, then none, with an empty root and count zero |
| DigestChain.StepKeeps | kernfs/fs.c:864-978 | every step of every node keeps what is known about marks, requests and completions |
| DigestChain.AnswersAreDurable | kernfs/fs.c:864-978 | in every run of every chain, when a node has answered a request, the run holds the digest and the persist step of that request for it and for every later node |
| DigestChain.DurableBeforeAnswer | kernfs/fs.c:864-978 | each answer of a node comes after the persist step of it and of every later node, and that one after the digest step |
| DigestChain.StepsInOrder | kernfs/fs.c:864-978 | in every run a node takes its steps for a request in one order: receive, mark, pass on, digest, persist, wait, answer; so the mark is set before the request is passed on |
| DigestChain.RelayedFirst | kernfs/fs.c:864-978 | a node receives a request only after the node in front has passed it on |
| DigestChain.NextAnswersFirst | kernfs/fs.c:864-978 | the wait of a node ends only after every later node has answered |
| DigestChain.CompletedAfterAnswer | kernfs/fs.c:2298-2308 | a completion is handled only after the next node has answered |
| DigestChain.OneAtATime | kernfs/fs.c:864-978 | in every run at most one request holds the mark of a node |
| DigestChain.NeverStuck | kernfs/fs.c:2298-2308 | in every run no completion is lost: when no node can take a step, every request has been answered |
| DigestChain.RunsEnd | kernfs/fs.c:864-978 | without new requests every run ends |
| Replication.FrontierMoves | kernfs/fs.c:2075-2112 | every message, wrapped or not, moves the replication frontier forward |
| Replication.BelowHasArrived | kernfs/fs.c:2075-2112 | a block below the frontier that arrives at all has arrived already |
| Replication.Peer.HandleReplicate | kernfs/fs.c:2075-2112 | the stored block and version are the frontier after the message |
| Replication.ArrivedExactly | kernfs/fs.c:2075-2112 | counted over all versions of the log, the frontier is the number of blocks sent, and the blocks in front of it are exactly those that have arrived |
| Replication.MessageExact | kernfs/fs.c:2091-2106 | the frontier is right after a message if and only if a message that starts a version reaches past the limit of the log from where the old version ended |
| Replication.Peer.MayDigest | kernfs/fs.c:638-708 | with the version from the record, the comparison of versions and blocks passes exactly when the last block of the digest is below the frontier |
| Replication.TestExact | kernfs/fs.c:638-708 | for a digest that starts at the record, the test passes if and only if all its blocks have arrived: it is neither too early nor too late |
| Replication.Peer.DigestLogs | kernfs/fs.c:508-635 | where the loop over the log headers ends, and whether it saw the next header move back |
| Replication.RecordExact | libfs/src/distributed/replication.c:427-466 | after a digest the record is the place of the next block, with the right version, if and only if no single header fills the whole log |
| Replication.OneHeaderFills | libfs/src/filesystem/shared.h:210-216 | a digest of one header that fills version 0 and leaves the record there |
| Replication.RunSafe | kernfs/fs.c:864-978 | over every run of messages and digests the record counts the blocks digested, is a place of its version, and never passes the frontier |
| Replication.DigestsArrived | kernfs/fs.c:638-708 | whenever a digest of a run starts, every block that it covers has arrived |
| Replication.DigestedOnce | kernfs/fs.c:508-635 | no log block is digested by two steps of a run |
| Replication.DigestedExactly | kernfs/fs.c:508-635 | exactly the blocks in front of the record have been digested by a step of the run |
| Replication.LatePasses | libfs/src/log/log.c:1785-1797 | when a digest that starts in the version behind the record's passes: always if it is not longer than the old version, else if and only if its last block, counted back by the old version's length, is below the frontier; it is never held back once its blocks are there |
| Replication.LateExact | libfs/src/log/log.c:1785-1797 | after it the record is right again if and only if the digest ends in front of the old version's last block |
| Replication.LateWitness | libfs/src/log/log.c:1785-1797 | a run after which such a digest passes although none of its blocks has arrived |
| Replication.Peer.UpdateDigestState | libfs/src/distributed/replication.c:427-466 | the start moves on, a wrapped start counts the version up, the sender's end is reset when no wrap is left, headers are subtracted on the NIC side, and the mark is cleared |
| Replication.Peer.WaitForReplication | kernfs/fs.c:638-708 | the wait ends at the first look at which the digest may begin |
| Replication.Peer.HandleDigest | kernfs/fs.c:839-960 | waiting, digesting and taking over the state is the messages that arrived followed by the digest step of the state machine; the mark is cleared, the digested headers are subtracted on the NIC side, and the sender's end is reset exactly when a wrapped digest leaves no wrap open; a digest that may not begin changes none of these |
| Replication.TestIsSound | kernfs/fs.c:638-708 | for messages of any length, a digest that passes finds all its blocks that are ever replicated, and would pass at any later time |
| Crc32c.EntriesAre | kernfs/mlfs_crc32.c:135-200 | every one of the 256 table entries is what eight shift steps make of its index |
| Crc32c.TableStep | kernfs/mlfs_crc32.c:203-212 | one byte through the table is one byte bit by bit |
| Crc32c.Compute | kernfs/mlfs_crc32.c:203-212 | for every start value and buffer the table loop is the bit-serial CRC-32C of section 12.1 of RFC 3720 |
| Crc32c.CrcInParts | kernfs/digest.c:709-715 | the checksum of a buffer is that of its second part, started from that of its first part |
| Crc32c.BurstDetected | kernfs/mlfs_crc32.c:203-212 | buffers of the same length that differ only inside four consecutive bytes never share a checksum |
| Fileset.FindEntry | bench/filebench/fileset.c:578-598 | the first entry at or after an index, or else the first entry of all |
| Fileset.NextIdle | bench/filebench/fileset.c:763-783 | the circular search ends with the first entry that is not handed out, or with none after one round |
| Fileset.FailsWhenAllBusy | bench/filebench/fileset.c:763-783 | the search fails if and only if every entry of the tree is handed out |
| Fileset.IdleIs | bench/filebench/fileset.c:785-796 | over every run the idle count is the number of entries not handed out |
| Fileset.KeysAreApart | bench/filebench/fileset.c:1360-1368 | over every run no two entries have the same index |
| Fileset.NeverTwice | bench/filebench/fileset.c:615-964 | over every run an entry is handed out again only after it was given back |
| Fileset.MoveEntry | bench/filebench/fileset.c:225-231 | the entry changes trees, and both stay balanced and in order |
| Fileset.Fileset.PopulateFile | bench/filebench/fileset.c:1346-1382 | a new file gets the next index, is free, idle and closed, and is in the tree of free files only; no other entry changes |
| Fileset.Fileset.Pick | bench/filebench/fileset.c:615-806 | an idle entry with the flags asked for, free, or else not free and existing or not as asked, is handed out and marked: the one with the smallest index at or after the index asked for, or else the smallest of all; none is handed out if and only if all such entries are busy; only the rotor asked for moves; every entry stays in its one tree |
| Fileset.ChosenIs | bench/filebench/fileset.c:615-806 | what the circular search of the tree asked for finds is the entry that the flags of all entries define, and the rotor moves behind the first entry at or after it, busy or idle |
| Fileset.RotorExact | bench/filebench/fileset.c:722-783 | after a pick in rotation the rotor is right behind the entry handed out if and only if the entry where the search started was idle |
| Fileset.RotorStays | bench/filebench/fileset.c:722-783 | two entries, the first one busy: the second is handed out and the next search starts with it again |
| Fileset.Fileset.Unbusy | bench/filebench/fileset.c:813-964 | existence becomes what is told or stays, the open count changes by the given number, the busy mark goes, no other entry changes; the idle count grows by one only for an entry that was handed out |

## Left out

- Tree blocks of an extent tree as addressed buffers: nodes are nested values with their block numbers, so aliasing of two index entries is ruled out by `Ledger` and not by separate buffers.
- I/O, path memory, checksums of tree blocks, allocation failure and the zero-out fallback in `kernfs/extents.c`; the block allocator is any function that returns free blocks beyond the first ones (`GoodAllocator`).
- The 16-bit length with its unwritten flag and the 48-bit physical block in `kernfs/extents.h`, and the packed parent word in `bench/filebench/fb_avl.h`: an extent has a length of at most 32768 blocks and a flag, a node has separate fields.
- The levels of the removal walk hold the entries of their nodes as values; `RmWalk` builds the changed nodes on its way up instead of in place.
- RemoveSpace: for an end at or above EXT_MAX_BLOCKS - 1 the source reads a path that it has not set, so the model requires a smaller end.
- GetBlocks: a creating call requires that the range, as long as it is after clamping, starts behind some extent or ends before the first one, the condition that `ClipExact` shows to be exact; creating and replacing requests are 1 to 32768 blocks long and end below the last block number, since a longer extent does not fit the 16-bit length.
- SplitExtentAt: neighbours that could be merged may be left in front of a split inside an extent, because the source merges at the second half only; extents in different leaves are never merged.
- MapFound: only the case that the source can reach is modelled for converting an unwritten extent, from the requested block to the end of the extent.
- The search to the right of the removed range, whose result the source does not use, and the reuse of a previous path.
- Directories as such, inode types, timestamps and inode checksums in `kernfs/digest.c`; the variants IOMERGE, FCONCURRENT and EXPERIMENTAL, pre-allocation entries and vectored writes.
- DigestEntries: what a new block held before is known at its turn only, as the result `olds`; blocks of the extent tree are not part of the modelled device, so a freed one may hold anything.
- DigestInode: zero-fills a file that grows, also after it was cut; `SetSize` says exactly when the blocks do.
- DigestUnlink: the file is gone; which blocks stay allocated is `UnlinkFile`, and a write to an unlinked inode, which lands in the cached inode or hits an assertion, is the state `Stray` in which the model does not follow the code further.
- The in-place updates of keys in `bench/filebench/fb_avl.c` (avl_update and its variants) and the argument checks of avl_create; swapping a removed node with its neighbour is two moves over the temporary node instead of three structure copies.
- DigestChain: the configuration in which the next node acknowledges a digest is modelled, with any number of requests and any interleaving; message loss, node failure and the number of digested blocks are not.
- Replication: versions are unbounded, and the variant in which the message itself says that the log wrapped is not modelled. How a sender forms its requests is not modelled either; runs consist of digests that start at the record, and `LatePasses` and `LateExact` say what the other ones do.
- FitsDigest: headers do not reach across the end of a version, and the sender does not write over blocks that wait for a digest.
- FitsMessage: excludes a message that starts a version but, counted from the end of the old one, stays inside the log; the code then stays in the old version (`MessageExact`). A message that holds the log header which did not fit is never of this kind.
- FreeBlocks: the source also asserts that more blocks are in use than are freed (kernfs/extents.c:283); in the model the count may reach zero.
- Wait loops are the points at which a step becomes possible; condition variables, locks and thread pools are not modelled.
- Fileset: entry flags are kept in a table by tree node instead of in the record around the node; leaf directories, which work like files, directories, fileset_pickreset, paths and sizes are not modelled; indices do not overflow.
- Pick: is modelled from the point where the wait for an idle entry has ended.
- PopulateFile: requires that nothing has been handed out yet, as the source populates a file set before its threads start.
- RDMA, sockets, migration, statistics, random distributions, configuration and the client library.
