# A verified model of `ext4-core`

`ext4-core` reads and writes ext4 volumes: extent trees over a block allocator, a journal that shares one
circular log between a writer and a replayer, directory blocks that are chains of variable-length records,
and inodes packed into table blocks. This project models those four parts in Dafny, byte formats included,
and proves what they guarantee together.

All parts share one small state (`Device.dfy`): a device, which is a total map from block number to bytes,
and a transaction overlay of pinned block copies. Code that edits buffers, bitmaps, node blocks, directory
blocks or the log step by step is modelled by methods and classes that do the same, each proved against a
specification function; the properties are lemmas about those functions.

The layers, bottom up:

- **Allocation** (`BlockBitmap.dfy`, `BlockAlloc.dfy`): bitmaps on the device, free counts in memory.
- **Extent trees** (`ExtentNode.dfy`, `ExtentMap.dfy`, `ExtentLookup.dfy`, `ExtentView.dfy`,
  `ExtentAppend.dfy`, `ExtentTruncate.dfy`): node codec; the list of all extents as a partial map; lookups in
  trees of any depth; the shapes that append and truncate build, on values; and the methods on the device
  that refine them.
- **File data** (`FileBatches.dfy`, `FileData.dfy`, `FileWrite.dfy`, `FileRead.dfy`, `FileTruncate.dfy`,
  `FileRuns.dfy`): which blocks a write is granted, batch by batch; the write path, the reader and truncation in
  terms of the bytes of the file; runs of writes and truncations in one transaction.
- **Journal** (`JournalFormat.dfy`, `JournalLog.dfy`, `JournalReplay.dfy`, `JournalWriter.dfy`,
  `JournalRuns.dfy`, `JournalRecovery.dfy`, `JournalHistory.dfy`, `JournalMount.dfy`): block formats, the ring,
  replay as a function of the log and as a method in place, commit, writer against replayer over whole runs and
  crashes, and histories of commits, crashes and mounts.
- **Directories** (`DirBlock.dfy`, `DirTree.dfy`): one block as a tiling of records edited in place; directories
  of several blocks and rename.
- **Inodes** (`InodeTable.dfy`): the addressing formulas and read-modify-write through the overlay.

## What does not hold unconditionally

Where the code does not meet the obvious statement, the project proves when it does.

- An append lands at the end of the file, whatever unmapped block was asked for, past the end or in a hole: it
  reaches the requested block exactly when that block is the end (`AppendReachesRequest`). The write path
  therefore asks for a dense file and a first block at or before its end.
- Truncating a deep tree to nothing leaves a deep root without entries, which the next append rejects; this
  happens exactly for a deep tree at 0 (`EmptiedExactlyAtZero`, and the error clause of `AppendRun`).
- A block freed by a truncation is revoked twice, so its revoke list is twice as long as it need be (`TruncateTo`), and
  only (B - 16) / 4 entries of a list reach the log (`RevokeRoundTrip`).
- A split that finds the root full has already cut the last leaf on the device (`SplitLeaf` states the damage).
- An append fails for want of places exactly when its run does not coalesce and the shape of the tree leaves no
  place; extents placed and places left always add up to the same (`RoomStep`, `RoomConserved`). A write therefore
  fails only if no block is free, or if the end of the file plus the places left does not pass its last block.
- A write that finds no block free leaves the bytes of the file as they were; one that finds no place in the tree has
  cut the last leaf (`WriteFileData`, `SplitLeaf`).
- The blocks a write allocates are zeroed on the device without a pin. A write that succeeds has pinned all of them
  again with its data, so that nothing it changed but the descriptors is missing from the transaction
  (`WriteFileData`, `RedoneByReplay`); one that fails may have left zeroed blocks that no pin knows of.
- Truncation frees exactly what it drops if and only if it does not cut an extent that ends past the largest
  32-bit block number; of such an extent it leaves blocks in use (`FreedExactly`).
- Replay writes exactly the pinned blocks, in order, if and only if no block was revoked in the same or an earlier
  transaction or by a commit refused before, none starts with the journal magic, and every number fits its tag
  (`RestoresExactly`). The writer zeroes a leading magic but never sets the escape flag, although its comment says
  that it escapes.
- A refused commit leaves its revoke block in the log, under the number of the next transaction. Replay then writes
  a block it revoked for none of the transactions committed after it (`RefusedCommitDrops`).
- Replay ends on every log except one whose whole ring is revoke blocks of the starting sequence, and on that one
  it never does (`TerminatesExactly`).
- Mounting returns the superblock read before replay; it agrees with the one on the device exactly when the
  journal was clean (`CheckAndRecover`).
- A commit does not record in the superblock where its log starts, nor the next sequence number. The ring stays
  safe over a history of commits, refused commits, crashes and mounts if and only if every mount hands on a
  number past the commit blocks it finds (`HistorySafeExactly`). After a session that committed something, the next
  mount is safe exactly if the number recorded on the device is past the last one of the session
  (`MountAfterSession`); for a session that began from that superblock, exactly if it committed nothing
  (`MountAfterOwnSession`). It is also safe if recovery runs from the recorded start and the superblock is then read
  again (`ReloadedMountIsSafe`), which the code does not do: it hands on the superblock from before. On a dirty
  journal, a ring that is safe for the number where replay stopped is then safe for the writer exactly if replay
  stopped at the recorded number (`DirtyMountSafeExactly`).
- Commit once, mount again, and the new writer hands out the number of a commit block in the ring
  (`RemountLosesSafety`). A transaction of the same length that is then cut off before its commit block is taken for
  a committed one by a replay from there (`CutOffLooksCommitted`).
- After a crash, a mount whose superblock records the start of the run restores the committed transactions
  (`RecoverCrashed`). A clean superblock leaves the crashed image as it is, whatever had been logged, and that image
  is neither the state before nor the state after exactly if the crash fell between two home writes (`TornExactly`).
- The pinned group descriptors are built from the device at every allocation and free, so they carry the count of
  the group changed last and not those only pinned before (`OtherCountsStay`).
- Removing a directory entry takes exactly that entry out, with records starting only where they did before, if and
  only if no deleted record lies between it and the live record before it (`RemovalExact`). Behind a deleted record
  of its own length nothing goes, although the code reports success (`LostRemoval`).
- A name longer than 255 bytes, which rename does not refuse, is stored cut (`DirentRoundTrip`, `TryInsert`,
  `RenameIsMapUpdate`); renaming an entry onto itself loses it (`RenameOntoItself`).
- The `..` of a moved directory is rewritten in the block as it is on the device. Moving a directory into itself,
  under a name it does not hold yet, therefore loses the new entry too if and only if it was put into that block
  (`MoveIntoItself`).

The header comment of the journal writer promises a flush after every commit (ext4-core/src/journal/writer.rs:1-4,
92-94); the code of `commit` makes none. The model follows the code.

## Model

| member | source | states |
|---|---|---|
| Device.Transaction.PinBlock | ext4-core/src/journal/writer.rs:28-35 | Reads through the transaction see the new copy of this block and the old view of all others; a block already pinned keeps its place in the pin order. |
| BlockBitmap.BitIsMask | ext4-core/src/alloc/block_bitmap.rs:26-30 | The bit of block i is the bit of weight 1 << (i % 8) in byte i / 8. |
| BlockBitmap.Bitmap.Allocate | ext4-core/src/alloc/block_bitmap.rs:33-37 | Sets exactly that bit; false, with nothing changed, if it was set. |
| BlockBitmap.Bitmap.Free | ext4-core/src/alloc/block_bitmap.rs:40-44 | Clears exactly that bit; false, with nothing changed, if it was clear. |
| BlockBitmap.Bitmap.FirstFreeRun | ext4-core/src/alloc/block_bitmap.rs:58-73 | Finds the lowest run of clear bits of the requested length within the group and the bitmap, and none only if there is none. |
| BlockAlloc.SplitAddress | ext4-core/src/alloc/block_alloc.rs:41-57 | The group and the bit of a block address are its quotient and remainder by the group size, with no offset for the first data block. |
| BlockAlloc.CandidatesCover | ext4-core/src/alloc/block_alloc.rs:18-22 | The cyclic search order from any hint visits every group, group g after exactly the groups between that of the hint and g on the way up. |
| BlockAlloc.FirstFitIsNearest | ext4-core/src/alloc/block_alloc.rs:18-41 | What the search by groups and bits finds is, of all free runs of that length in block numbers, the first on the cyclic way up from the group of the hint, and the lowest in its group. |
| BlockAlloc.Allocator.FlushBitmap | ext4-core/src/alloc/block_alloc.rs:71-117 | A bitmap written through and pinned keeps bitmaps and counts in agreement, changes the free total by the difference, and pins the descriptors on the device with the new count of that group; no other block changes, on the device or in the pins. |
| BlockAlloc.Allocator.TakeRun | ext4-core/src/alloc/block_alloc.rs:34-41 | Takes exactly the bits of the run found, lowers the free total by its length, and pins the new count. |
| BlockAlloc.Allocator.AllocBlocks | ext4-core/src/alloc/block_alloc.rs:9-46 | Returns the free run of that length nearest to the hint: in the first group that has one, counting up from the group of the hint and round, and the lowest there; exactly these blocks leave the free set, and what changes on the device is pinned; it fails, changing nothing, only if there is no such run at all. |
| BlockAlloc.Allocator.FreeBlock | ext4-core/src/alloc/block_alloc.rs:49-69 | Frees and revokes exactly that block and pins the new count; reports a double free exactly for a block that is free already, changing nothing. |
| BlockAlloc.JournaledRedoes | ext4-core/src/journal/writer.rs:28-35 | If the pins replayed over the device as the transaction found it give the device as it is, descriptors apart, they still do after any step that pins what it changes. |
| BlockAlloc.TotalIsFreeBlocks | ext4-core/src/group_desc.rs:177-183 | With every count equal to its group's clear bits, the counts add up to the number of free blocks of the volume. |
| BlockAlloc.CountReadsBack | ext4-core/src/alloc/block_alloc.rs:103-115 | The count written into a descriptor reads back, in both halves of a wide one, and nothing else in the block changes. |
| BlockAlloc.OtherCountsStay | ext4-core/src/alloc/block_alloc.rs:99-117 | The image pinned for one group carries the other groups' counts as the device has them. |
| BlockAlloc.ImageCounts | ext4-core/src/alloc/block_alloc.rs:99-117 | Read back descriptor by descriptor, the rewritten block stores the new count for its group, as wide as descriptors are, and the old one for every other group. |
| BlockAlloc.PinnedCounts | ext4-core/src/group_desc.rs:56-85 | With wide descriptors, the pinned block says for the group changed last what is in memory, and for the others what the device says. |
| ExtentNode.NodeRoundTrip | ext4-core/src/extent_write.rs:114-138 | A node whose fields fit their widths decodes to itself from its encoding. |
| ExtentNode.DecodedEncodable | ext4-core/src/extent.rs:94-116 | Whatever decodes has fields that fit and entries that fit the buffer. |
| ExtentMap.AppendExtendsMap | ext4-core/src/extent_write.rs:168-241 | On the list of all extents an append, coalescing or not, changes the map only by adding the run after the old end. |
| ExtentMap.AppendKeepsOrder | ext4-core/src/extent_write.rs:141-150 | The list stays sorted, stays dense if it was, and ends `count` blocks later. |
| ExtentMap.DenseMaps | ext4-core/src/file_write.rs:65-71 | A dense file maps exactly the blocks below its end. |
| ExtentMap.TruncRestrictsMap | ext4-core/src/extent_write.rs:511-556 | Truncation at k leaves exactly the map restricted to blocks below k. |
| ExtentMap.TruncSplitsData | ext4-core/src/extent_write.rs:524-547 | Truncation splits the data blocks into kept and dropped ones, with as many single frees as dropped blocks. |
| ExtentMap.AppendAddsData | ext4-core/src/extent_write.rs:296-317 | An append adds exactly the appended run to the data blocks and keeps every block used once. |
| ExtentMap.FindInjective | ext4-core/src/journal/mod.rs:95-108 | In such a list different logical blocks resolve to different physical blocks. |
| ExtentLookup.LookupIsFind | ext4-core/src/extent.rs:88-166 | In a well-formed tree of any depth the descent gives, for every block, the answer of the scan over all collected extents. |
| ExtentLookup.CollectLeaves | ext4-core/src/extent.rs:230-278 | Collects exactly the leaf extents, left to right; it fails exactly on passing the leaf limit. |
| ExtentLookup.CollectSorted | ext4-core/src/extent.rs:197-199 | The collected extents are already in order, so the sort after every collection changes nothing. |
| ExtentLookup.ResolveIsFind | ext4-core/src/file.rs:51-72 | Bisection over sorted extents gives the answer of the scan, holes and uninitialised extents included. |
| ExtentLookup.ExtentIter.Next | ext4-core/src/extent.rs:283-328 | The iterator yields every block of the file in turn, each with the answer of the scan. |
| ExtentLookup.ExtentIter.constructor | ext4-core/src/extent.rs:193-214 | It stops after the block that holds the last byte: as many blocks as the size rounded up. |
| ExtentLookup.LookupsAgree | ext4-core/src/journal/mod.rs:95-108 | Descent, scan and bisection agree on every block of every well-formed tree. |
| ExtentView.AppendFlattens | ext4-core/src/extent_write.rs:168-241 | Coalescing, filling, growing and splitting are all the same append on the list of all extents. |
| ExtentView.AppendKeepsDenseTree | ext4-core/src/extent_write.rs:352-428 | A successful append keeps the tree invariant: fill limits, ascending keys that are the first blocks of their leaves, dense sorted extents, no empty leaf. |
| ExtentView.TruncFlattens | ext4-core/src/extent_write.rs:559-595 | Truncating leaf by leaf is truncating the list of all extents. |
| ExtentView.TruncKeepsDenseTree | ext4-core/src/extent_write.rs:503-595 | Truncation keeps the tree invariant, for a deep tree if it keeps at least one block. |
| ExtentView.EmptiedExactlyAtZero | ext4-core/src/extent_write.rs:319-330 | A truncated dense file has no leaf left exactly when a deep tree was truncated to nothing. |
| ExtentView.RunKeepsDenseTree | ext4-core/src/extent_write.rs:168-595 | Every run of successful appends and truncations keeps the tree invariant at every step, at depth at most one, as long as no deep tree is truncated to nothing. |
| ExtentView.AppendFailsAtCapacity | ext4-core/src/extent_write.rs:394-428 | With M entries to a leaf, an append to an append-only file fails exactly when it would need more than 3 * (M / 2) + M extents. |
| ExtentView.RoomStep | ext4-core/src/extent_write.rs:352-428 | An append fails exactly when the shape has no place left and the run does not coalesce; a success uses one place, or none if it coalesces. |
| ExtentView.RoomConserved | ext4-core/src/extent_write.rs:352-428 | A successful append leaves the sum of the extents placed and the places left as it was. |
| ExtentAppend.WriteNode | ext4-core/src/extent_write.rs:54-59 | A node written through and pinned reads back as itself; nothing else changes, in particular no allocation. |
| ExtentAppend.SplitLeaf | ext4-core/src/extent_write.rs:377-414 | The upper half moves to a new indexed leaf; if the root is full the error comes with the last leaf already halved; every block changed is pinned. |
| ExtentAppend.GrowTree | ext4-core/src/extent_write.rs:432-465 | The root's extents move to a leaf of their own under a single index entry with key 0. |
| ExtentAppend.AppendToLeaf | ext4-core/src/extent_write.rs:337-373 | Fills or splits the last leaf exactly as the append on shapes says, and always succeeds on a leaf with room. |
| ExtentAppend.AppendRun | ext4-core/src/extent_write.rs:168-241 | On success the shape on the device changes as the append on shapes says; a node is added exactly when the run does not coalesce and the last leaf is full, in the free block nearest to the hint; without need of a node it succeeds; errors are told apart: no leaf at all, volume full, with nothing changed, tree at its capacity; nodes and bitmaps that change are pinned, and nothing else changes. |
| ExtentAppend.AppendKeepsOwns | ext4-core/src/extent_write.rs:168-241 | After an append data blocks and nodes are still in use, each for one purpose. |
| ExtentTruncate.TruncateLeaf | ext4-core/src/extent_write.rs:511-556 | The in-place walk leaves the truncated list and frees each dropped block once, never a free one; what becomes free is revoked, each block twice, and nothing else is. |
| ExtentTruncate.FreeLeaf | ext4-core/src/extent_write.rs:608-621 | Frees every block of every extent of a dropped leaf once, and revokes exactly these. |
| ExtentTruncate.FreedExactly | ext4-core/src/extent_write.rs:525-541 | With the saturating end of the code, exactly the dropped blocks of an extent are freed if and only if it is not an extent cut that ends past the largest block number. |
| ExtentTruncate.TruncateChild | ext4-core/src/extent_write.rs:562-590 | A leaf from k on goes with its block and its entry; any other is truncated in its place; exactly what becomes free is revoked. |
| ExtentTruncate.TreeSplits | ext4-core/src/extent_write.rs:503-637 | The blocks of a tree split into kept and freed ones, and there are as many frees as freed blocks. |
| ExtentTruncate.TruncateWalk | ext4-core/src/extent_write.rs:559-595 | The walk over the shrinking index ends with the kept entries over the truncated leaves, and frees and revokes exactly the freed part of the tree. |
| ExtentTruncate.TruncateTo | ext4-core/src/extent_write.rs:471-501 | Never fails, with every error on the way passed on; the shape is the truncated one, exactly the blocks the file gives up become free, each freed once, and are revoked, each twice, and no other block is; the free total rises by their number, what remains is still the file's own, and only nodes and bitmaps change, each pinned as the device has it. |
| FileData.ViewIsTree | ext4-core/src/extent.rs:88-166 | A well-formed shape on the device is a well-formed tree, and lookups in it scan the list of all its extents. |
| FileData.OutdatedLookup | ext4-core/src/file_write.rs:64-81 | Through the inode snapshot taken before the write, a lookup past the current end still finds nothing, whatever has been appended since. |
| FileData.AppendKeepsData | ext4-core/src/file_write.rs:100-103 | Appending zeroed blocks changes no byte of the file. |
| FileData.OverlaidFile | ext4-core/src/file_write.rs:113-139 | Overlaying the data on every block overlays it on the file. |
| FileData.AppendReachesRequest | ext4-core/src/extent_write.rs:199 | In any sorted file, holes and uninitialised extents included, an append reaches the unmapped block it was made for exactly when that block is the end of the file. |
| FileBatches.GrantIsLarge | ext4-core/src/file_write.rs:88-97 | No free run within the request is longer than twice what halving grants. |
| FileBatches.StepUnique | ext4-core/src/file_write.rs:87-110 | From one shape and one set of free blocks a batch leads to one shape and one set only, data and node blocks included. |
| FileBatches.RefusedOnce | ext4-core/src/file_write.rs:90-97 | A batch that is refused is refused for one reason: the shape and the free blocks determine the error. |
| FileBatches.StuckIsFinal | ext4-core/src/file_write.rs:64-111 | Where the batches of a write cannot go on, no other way of making them goes further: success or the error is determined by the shape, the free blocks and the request. |
| FileWrite.NewFile | ext4-core/src/alloc/inode_alloc.rs:66-81 | On every consistent volume the empty root of a fresh inode already is a dense file, from which the writes, reads and truncations below can start. |
| FileWrite.AllocHalving | ext4-core/src/file_write.rs:87-98 | Grants the first of the request, its half, its quarter and so on of which there is a free run, in the nearest such run, and fails exactly when no block is free. |
| FileWrite.ZeroRun | ext4-core/src/file_write.rs:100-102 | The fresh blocks read as zeros and nothing else changes. |
| FileWrite.AppendBatch | ext4-core/src/file_write.rs:87-109 | One batch keeps a dense file a dense file, appends the granted run, takes a node block where the append needs one, changes no byte and writes only free blocks, nodes and bitmaps; the sum of the end and the places left in the tree does not fall; all it writes is pinned but the zeroed run; it fails exactly for lack of free blocks, the file then being as it was, or of a place for the granted run. |
| FileWrite.FillRun | ext4-core/src/file_write.rs:83-110 | Provisions exactly the blocks of the run, in the batches that the free blocks determine, and records where each of them is; it fails only where the next batch cannot be made. |
| FileWrite.FindRunEnd | ext4-core/src/file_write.rs:73-80 | The run past the end of the file extends to the end of the write or to the batch limit. |
| FileWrite.Provision | ext4-core/src/file_write.rs:57-111 | Every block of the write is mapped and recorded, chunk by chunk in the batches that the free blocks determine, the file ends at the later of its old end and the write's, and no byte has changed; it fails only where the next batch cannot be made, and then no block is free or the end plus the places left does not pass the last block. |
| FileWrite.WriteSlice | ext4-core/src/file_write.rs:114-138 | The block becomes the overlay of the data on it, full block or read-modify-write, on the device and pinned. |
| FileWrite.WriteBlocks | ext4-core/src/file_write.rs:113-139 | All blocks of the write hold their overlays, pinned copies agree with the device, and no other block or pin changes. |
| FileWrite.WriteFileData | ext4-core/src/file_write.rs:40-142 | After a successful write the file reads as the data in its range and as before everywhere else, its shape and the free blocks are those that the batches lead to, and blocks of nothing else were written; mapped blocks stay where they were, free blocks and blocks of the file stay the same together, and every block written is pinned as the device has it; it fails only where the next batch cannot be made, and then no block is free, and the file still reads as before, or the end of the file plus the places left in its tree does not pass the last block of the write. |
| FileRead.FileReader.Read | ext4-core/src/file.rs:76-114 | Returns the bytes of the file from the position on, up to its size or the buffer's end, and advances by as many. |
| FileRead.FewExtents | ext4-core/src/extent.rs:256-259 | No tree that writes build has too many extents to be collected. |
| FileRead.Open | ext4-core/src/file.rs:38-46 | Opening any well-formed tree gives a reader over all its extents in order, and fails exactly if there are too many. |
| FileRead.DenseOpens | ext4-core/src/file.rs:38-46 | A dense file can always be opened, and its reader holds the extents that writes built. |
| FileRead.WriteThenRead | ext4-core/src/file_write.rs:54-139 | A successful write followed by a read of the same range returns what was written. |
| FileTruncate.LookupAfterAppend | ext4-core/src/extent.rs:88-166 | After any successful append, lookups find the run right after the old end and every other block where it was. |
| FileTruncate.LookupAfterTruncate | ext4-core/src/extent_write.rs:503-595 | After a truncation of any well-formed tree, sparse or emptied, lookups find the blocks below k where they were and nothing else. |
| FileTruncate.TruncatedData | ext4-core/src/extent_write.rs:511-556 | Truncation keeps the bytes of the blocks below k and makes everything else read as zeros. |
| FileTruncate.TruncateFile | ext4-core/src/extent_write.rs:471-501 | A truncated dense file is a dense file with its first k blocks unchanged and zeros behind, exactly what it gave up is free and has been revoked, and every block changed is pinned. |
| FileRuns.Run | ext4-core/src/file_write.rs:40-142 | After any run of writes and truncations in one transaction each byte of the file is what the edits make of it, free blocks and blocks of the file are together what they were, and the pins redo the whole run. |
| FileRuns.RedoneByReplay | ext4-core/src/journal/writer.rs:103-111 | Written over the device as the transaction found it, the pins give every block, descriptors apart, as the run left it. |
| JournalFormat.LoggedData | ext4-core/src/journal/writer.rs:208-218 | A logged data block never starts with the magic, and is the data exactly if the data did not. |
| JournalFormat.EscapeRestores | ext4-core/src/journal/replay.rs:199-206 | With the escape flag set for the blocks whose magic was zeroed, replay would restore every data block; without it, exactly those that do not start with the magic. |
| JournalFormat.HeaderRoundTrip | ext4-core/src/journal/writer.rs:274-280 | A block that starts with a written header carries the magic, its kind and its sequence number. |
| JournalFormat.BuildDescriptor | ext4-core/src/journal/writer.rs:157-206 | Lays out the tags one by one; fails exactly when 28 + 12 n bytes do not fit the block. |
| JournalFormat.DescriptorRoundTrip | ext4-core/src/journal/replay.rs:168-217 | Replay reads back the tags in order, block numbers cut to 32 bits, or to 48 with the 64-bit feature. |
| JournalFormat.TagDecodes | ext4-core/src/journal/replay.rs:17-22 | Any tag reads as its number, its deleted, escape and last bits and the length of its UUID, whatever its other flags and its checksum. |
| JournalFormat.BuildRevoke | ext4-core/src/journal/writer.rs:234-252 | Lays out the revoke list entry by entry, as many as fit, under the count of all. |
| JournalFormat.CollectRevoked | ext4-core/src/journal/replay.rs:222-248 | Adds exactly the numbers the block announces and holds. |
| JournalFormat.RevokeRoundTrip | ext4-core/src/journal/replay.rs:222-248 | Replay reads back the first (B - 16) / 4 revoked numbers, cut to 32 bits. |
| JournalFormat.SuperRoundTrip | ext4-core/src/journal/superblock.rs:80-114 | Laid out field by field, a journal superblock parses to exactly its fields if and only if magic, features and geometry are acceptable, and otherwise to the error for the first that is not. |
| JournalFormat.MarkedCleanParses | ext4-core/src/journal/replay.rs:250-276 | Marking clean changes the start and the sequence the superblock parses to, and nothing else. |
| JournalLog.PutHolds | ext4-core/src/journal/writer.rs:137-155 | What fits the ring, wrapping included, does not overwrite itself. |
| JournalReplay.TerminatesExactly | ext4-core/src/journal/replay.rs:69-150 | From any position and sequence number the pass ends unless the whole ring consists of revoke blocks of that number, and then it never does. |
| JournalReplay.ParseDescriptor | ext4-core/src/journal/replay.rs:154-220 | Collects the writes of all live tags, with their data, and the position where the commit block has to be. |
| JournalReplay.MarkJournalClean | ext4-core/src/journal/replay.rs:250-276 | Rewrites start and sequence of the journal superblock in place and nothing else. |
| JournalReplay.Replay | ext4-core/src/journal/replay.rs:49-141 | Terminates, and leaves the image with exactly the writes of the pass over the original log applied in order and the journal marked clean; a clean journal is left alone. |
| JournalWriter.JournalWriter.constructor | ext4-core/src/journal/writer.rs:65-82 | A writer starts at the log start, or at the first block of a clean ring, with the sequence, the block size and the UUID of the superblock. |
| JournalWriter.JournalWriter.AdvanceWriteHead | ext4-core/src/journal/writer.rs:137-142 | The head moves to the next block of the ring and stays in the ring. |
| JournalWriter.JournalWriter.WriteToJournal | ext4-core/src/journal/writer.rs:144-155 | Appends one block to the log at the head. |
| JournalWriter.JournalWriter.WriteDataBlocks | ext4-core/src/journal/writer.rs:208-218 | Appends all data blocks in pin order, a leading magic zeroed. |
| JournalWriter.JournalWriter.Commit | ext4-core/src/journal/writer.rs:95-113 | Writes revoke, descriptor, data and commit blocks and then the home blocks, in this order; fails exactly when the tags do not fit, and then only the revoke block has been logged. |
| JournalRuns.ScanTxn | ext4-core/src/journal/replay.rs:89-133 | The pass over one logged transaction applies its blocks, less everything revoked so far, and goes on right behind it. |
| JournalRuns.ScanRefused | ext4-core/src/journal/replay.rs:130-133 | The pass over the revoke blocks of refused commits adds all their numbers and stays at the same sequence. |
| JournalRuns.TailStops | ext4-core/src/journal/replay.rs:81-122 | Once the pass has reached the next sequence number of a safe ring it applies nothing more. |
| JournalRuns.CommitIsAtomic | ext4-core/src/journal/writer.rs:95-105 | After a run of transactions and any prefix of the log writes of one more, replay applies the run without it, or with all of it exactly when its commit block is in the prefix; it ends whenever the run is not empty, and the ring is safe at every point. Of what the ring held before, only the blocks that are not written over must be safe for the number after. |
| JournalRuns.RunRoundTrip | ext4-core/src/journal/replay.rs:65-150 | A run that fits the ring replays, from its start, to all its transactions in order and to the writer's next sequence, whatever it wrote over; what it did not write over may hold no commit block with a number past it. |
| JournalRuns.RestoresExactly | ext4-core/src/journal/replay.rs:195-210 | Replay writes exactly the pinned blocks, in order, if and only if none was revoked in the same or an earlier transaction or by a commit refused before, none starts with the magic and all numbers fit their tags. |
| JournalRuns.RefusedCommitDrops | ext4-core/src/journal/writer.rs:95-113 | A block that a refused commit revoked is replayed for none of the transactions committed after it. |
| JournalRecovery.RecoveryIsIdempotent | ext4-core/src/journal/replay.rs:69-138 | Cut short after any of its in-place writes and run again from the start, recovery comes to the same outcome and the same image. |
| JournalRecovery.CrashConsistency | ext4-core/src/journal/writer.rs:95-113 | Cut a commit short after any log or home write and replay from the start of the run: replay stays out of the journal, and every block outside it reads as the run without the last transaction left it, or, exactly when its log is complete, with it. |
| JournalRecovery.CheckAndRecover | ext4-core/src/journal/mod.rs:142-153 | Accepts exactly the superblocks laid out with acceptable fields and no error number, and names the fault of any other; makes the writes of the pass over a dirty journal, leaves the superblock clean with the number where the pass stopped, and leaves the device alone if the journal was clean; the superblock it returns is the one from before. |
| JournalHistory.SafeFromTop | ext4-core/src/journal/replay.rs:81-122 | The ring is safe for exactly the numbers past every commit block in it. |
| JournalHistory.AttemptKeepsSafe | ext4-core/src/journal/writer.rs:95-155 | A commit, a refused one, or one cut off after any log block leaves the superblock alone and the ring safe for a writer that goes on. |
| JournalHistory.MountSafeExactly | ext4-core/src/journal/mod.rs:142-153 | A mount meets a safe ring if and only if the number it hands on is past every commit block in the ring. |
| JournalHistory.HistorySafeExactly | ext4-core/src/journal/writer.rs:65-113 | Over any history of commits, refused commits, crashes and mounts, however often the log wraps, the ring stays safe if and only if every mount hands on such a number. |
| JournalHistory.TopAfterSession | ext4-core/src/journal/writer.rs:137-155 | After a session that committed something its last commit block is the top of the ring, unless a cut-off commit went round the whole ring. |
| JournalHistory.MountAfterSession | ext4-core/src/journal/writer.rs:65-82 | After a session of any writer that committed something, the ring is safe at the next mount exactly if the number the superblock records is past the last of the session; after one that committed nothing, if it was safe for that number before. |
| JournalHistory.MountAfterOwnSession | ext4-core/src/journal/writer.rs:65-113 | After a session that began from its own superblock over a safe ring, the next mount is safe exactly if nothing was committed. |
| JournalHistory.ReloadedMountIsSafe | ext4-core/src/journal/replay.rs:250-276 | If recovery ran from the recorded start of a run that fits the ring, and the superblock were read again, the ring would be safe. |
| JournalHistory.DirtyMountSafeExactly | ext4-core/src/journal/mod.rs:142-153 | Over a ring safe for the number where replay stopped, the writer of a dirty mount, built from the superblock read before replay, is safe exactly if replay stopped at the recorded number. |
| JournalHistory.RemountLosesSafety | ext4-core/src/journal/writer.rs:65-113 | Mount a clean journal, commit any transaction, mount again: the new writer has the number of the commit block in the ring. |
| JournalHistory.CutOffLooksCommitted | ext4-core/src/journal/replay.rs:89-122 | A transaction cut off before its commit block, where a stale commit block of its number lies in the right place, is replayed. |
| JournalMount.OpenJournal | ext4-core/src/journal/mount.rs:55-69 | Opens exactly the journals with acceptable fields and no error number; recovery and a writer from the superblock it returns are the mount step of a history. |
| JournalMount.CommitStep | ext4-core/src/journal/writer.rs:95-113 | A commit on the device, refused or not, is the full attempt of a history. |
| JournalMount.RecoverCrashed | ext4-core/src/journal/mod.rs:142-153 | After a crash at any block write, recovery from a superblock that records the start of the run restores exactly the transactions with a commit block; a clean superblock leaves the image as it is, whatever the writer had logged and wherever. |
| JournalMount.TornExactly | ext4-core/src/journal/writer.rs:103-111 | Without replay, wherever and under whatever number it was logged, the crashed image reads as without the transaction exactly if no home write was done, and as with it exactly if all were. |
| DirBlock.ParseBlock | ext4-core/src/dir.rs:90-104 | A tiled block parses to its live records in order. |
| DirBlock.DirentRoundTrip | ext4-core/src/dir_write.rs:84-96 | A written record reads back; it comes back whole exactly if the name has at most 255 bytes. |
| DirBlock.TryInsert | ext4-core/src/dir_write.rs:130-180 | Edits the block in place to the chain with the entry, its name cut to what the length byte covers, in the first deleted record long enough or in the slack of a live last record; false, with the block unchanged, exactly when there is neither. |
| DirBlock.InsertAddsOne | ext4-core/src/dir_write.rs:130-180 | Insertion adds one entry to the list of live entries, changes no other, and the records still add up to the block. |
| DirBlock.InsertAppends | ext4-core/src/dir_write.rs:160-173 | In a block without deleted records the entry comes last. |
| DirBlock.TakesAtEnd | ext4-core/src/dir_write.rs:160-164 | Such a block takes an entry exactly when the slack of its last record is large enough. |
| DirBlock.RemoveEntry | ext4-core/src/dir_write.rs:318-359 | Finds the first live record of the name and grows the live record before it, or marks it deleted if there is none; nothing changes if the name is not there. |
| DirBlock.RemovalExact | ext4-core/src/dir_write.rs:338-357 | The block is tiled again with exactly that entry gone, records starting only where they did before, if and only if nothing deleted lies between the record and the live one before it. |
| DirBlock.LostRemoval | ext4-core/src/dir_write.rs:338-357 | Behind one deleted record of the same length the live record before grows over that one instead, and every entry is still there. |
| DirBlock.RunKeeps | ext4-core/src/dir_write.rs:130-359 | Every run of insertions, and removals with nothing deleted right before them, does to the entries what it does to a plain list, and the records keep adding up to the block. |
| DirBlock.RunBlock | ext4-core/src/dir_write.rs:130-359 | The same run on the bytes: the block stays tiled exactly, with names inside records, and parsing it reads back the list. |
| DirBlock.RunAppends | ext4-core/src/dir_write.rs:130-359 | From a block without deleted records whose first record is never removed every run is such a run, leaves none deleted, and appends what it inserts. |
| DirTree.DirInsert | ext4-core/src/dir_write.rs:184-245 | Through the overlay, the entry goes into the first block that takes it or into a new block of its own; all other blocks and pins stay. |
| DirTree.DirRemove | ext4-core/src/dir_write.rs:293-363 | Through the overlay, the first block with the name becomes the bytes that removal leaves of it, and no other block changes; with nothing deleted before the record the first entry of the name goes; its inode number is returned. |
| DirTree.DirLookup | ext4-core/src/dir_write.rs:366-396 | Finds the first live entry of the name on the device. |
| DirTree.DirIsEmpty | ext4-core/src/dir_write.rs:399-427 | True exactly if all live entries are the two dot entries. |
| DirTree.UpdateDotDot | ext4-core/src/dir_write.rs:430-465 | Writes the block with the `..` entry back as it is on the device, that entry repointed, whatever the transaction had done to the block; nothing else changes. |
| DirTree.FindIsName | ext4-core/src/dir.rs:149-183 | Lookup reads the map from names to inodes that the entries stand for. |
| DirTree.Rename | ext4-core/src/dir_write.rs:468-516 | Leaves all directories as the three edits and the rewritten `..` block say, a move into itself included; pins only blocks of the directories involved; fails, with nothing pinned, exactly on a missing source or an occupied directory as destination. |
| DirTree.RenameIsMapUpdate | ext4-core/src/dir_write.rs:468-516 | With unique names and both removals clean, and unless an entry is renamed onto itself or a directory moved into itself, rename moves one name between the maps, repoints the `..` of a directory that changed parents, and keeps every other name of every directory. |
| DirTree.RenameOntoItself | ext4-core/src/dir_write.rs:484-508 | Renaming an entry onto itself loses it. |
| DirTree.MoveIntoItself | ext4-core/src/dir_write.rs:502-513 | Moving a directory into itself, under a name it does not hold yet, removes the source entry, and the new entry is lost as well if and only if it was put into the block with `..`. |
| DirTree.NoneDeletedRemovals | ext4-core/src/dir_write.rs:338-357 | In directories without deleted records both removals of a rename take out what they should. |
| InodeTable.FormulasAgree | ext4-core/src/inode.rs:111-165 | The sector, offset and slot formulas name the same 128 bytes of the device, within one block, under the geometry checks of the superblock. |
| InodeTable.InodeNumbering | ext4-core/src/inode.rs:111-165 | The i-th inode of group k has number k * inodesPerGroup + i + 1 and lies i inodes into the table of that group. |
| InodeTable.InodesApart | ext4-core/src/inode_write.rs:54-68 | Different inodes live in different bytes when group tables do not overlap. |
| InodeTable.ReadInode | ext4-core/src/inode.rs:147-177 | Reads the inode the transaction sees, from the pinned table block or from the sectors of the device, and reports bad numbers, missing groups and deleted inodes. |
| InodeTable.UpdateSetsFields | ext4-core/src/inode_write.rs:101-123 | An update sets exactly the fields it names, each cut to its width, the split ones in both halves. |
| InodeTable.FreshTree | ext4-core/src/alloc/inode_alloc.rs:66-81 | The tree area of a fresh inode decodes to a leaf with room for four extents and none in it. |
| InodeTable.InitialFields | ext4-core/src/alloc/inode_alloc.rs:66-81 | A fresh inode has one link, no size, an empty extent tree, and the owner, mode and time given. |
| InodeTable.FlushSetsRoot | ext4-core/src/extent_write.rs:102-112 | Flushing an extent root sets the tree and the sector count of its inode and no other field. |
| InodeTable.FreeSetsDeletion | ext4-core/src/alloc/inode_alloc.rs:101-108 | Freeing an inode sets its deletion time and no other field. |
| InodeTable.EffectOnFields | ext4-core/src/inode_write.rs:89-126 | Every edit of the bytes of an inode is the edit of its fields that the operation stands for. |
| InodeTable.OtherBytesStay | ext4-core/src/inode_write.rs:89-126 | No update, free or root flush touches a byte outside the fields it sets. |
| InodeTable.Apply | ext4-core/src/alloc/inode_alloc.rs:182-195 | One read-modify-write through the overlay changes its own inode as intended and no other, pins the block of that inode and no other, and reaches the device only when it is not a field update. |
| InodeTable.ApplyAll | ext4-core/src/inode_write.rs:89-126 | After any interleaving of initialisations, updates, frees and root flushes in one transaction, every inode reads, in bytes and in fields, as its own operations left it, and the pins and the device change only at the blocks of the inodes named. |
| InodeTable.ReadAfter | ext4-core/src/inode.rs:147-177 | Read after any such interleaving, an inode last freed is reported deleted, as long as the time is no multiple of 2^32, and one last initialised reads as fresh. |

## Left out

- I/O errors and short reads: a block write is atomic and never fails, and a block never written reads as zeros.
- Crash safety of whole operations: bitmaps, inode tables and extent nodes are written through before commit, so only the log layer is atomic.
- The group descriptors beyond the free block counts: inode counts, checksums and descriptors past the first block are not modelled.
- `i_blocks` accounting, timestamps as such, mode bits and name encodings: sector counts, times and names are parameters and byte strings.
- The commit checksum, `checkpoint` and flushes: replay ignores the checksum and `commit` does not flush.
- WinFsp callbacks, command line, mount process handling, raw disks, image files and the sector cache.
- Inode allocation (`alloc_inode`), hard links, `dir_add_entry` with its duplicate check, symlinks and `seek`: easier relatives of what is modelled.
- Extent roots as part of inode bytes: the tree methods take and return the root node as a value; that flushing it loses no other inode is `InodeTable.ApplyAll`.
- Malformed nodes in the write path: the shapes are assumed to be nodes, except for the empty deep root that truncation itself produces.
- BlockAlloc.Allocator.FreeBlock: a bitmap or descriptor block, which belongs to no file, is never freed in the model.
- ExtentNode.NodeRoundTrip: the bytes behind the entries are zero in the model; the code leaves old ones there, which no reader looks at.
- ExtentView.RunKeepsDenseTree: writes build trees of depth at most one, and so does the model; lookups are modelled at any depth.
- ExtentAppend.SplitLeaf: on a full root nothing is said about the map, because the damage is real.
- ExtentTruncate.TruncateLeaf: no extent that is cut ends past 2^32 - 1, where `ExtentTruncate.FreedExactly` shows the code to leave blocks in use.
- FileRuns.Run: every truncation in it keeps at least one block, since a deep tree truncated to nothing takes no append.
- FileWrite.WriteFileData: asks for a dense file without uninitialised extents and a first block at or before its end, since append cannot place blocks elsewhere; the update of the inode size by the caller is not part of it.
- JournalRuns.RunRoundTrip: sequence numbers stay below 2^32; the code adds one without a check for wrapping.
- JournalReplay.Replay: the log start and its sequence are taken from the superblock value passed in, since `commit` never records them; no block that the pass writes may be one of the journal itself, and journal and filesystem block sizes are equal.
- JournalHistory.MountAfterSession: a last commit that is cut off has logged fewer blocks than the ring holds, because more would write over the commit blocks before it.
- DirBlock.TryInsert: blocks are below 64 KiB, where the code's 16-bit record length would be 0, and names no longer than a block.
- DirTree.DirInsert: the new block and its place at the end of the directory come from the allocator and the extent tree as parameters; link counts of replaced files are not changed.
- DirTree.Rename: the transaction has not pinned a block of a directory before, as in its only caller, which begins a transaction for each rename; and both removals must take out what they should.
