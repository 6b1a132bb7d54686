# ParchFS image builder, user-space allocator and console codecs: model and proofs

The project models four parts of the repository in Dafny and proves what they are for.

* **ParchFS** (`parchfs/parchfs.cpp`). `class ParchFS` holds the two block bitmaps, the inode bitmap, the superblock,
  the inode table and the blocks, updated in place by methods that follow the C++ ones branch by branch. Beside the
  arrays it carries one ghost value, `State`, and every method says what it did to that value: who owns each block, how
  many tree slots each inode has filled, how many data pages it has. A directory is a file of 128-byte entries; the
  whole file system seen from outside is `FilesOf`, a sequence of (type, bytes). The top result is `BuildImage`: for
  every host tree, building the image succeeds exactly when names, inodes and blocks are enough, and then a reader that
  starts at the root inode finds exactly that tree.
* **Allocator** (`usrlib/parch/utils.c`). `class Heap` holds the `ptr` and `size` fields of the header at each unit
  address, the roving pointer and the ghost value `View` (the list, the node `freep` is at, the live blocks, the units
  obtained). The list is canonical: `base` and the maximal runs of free units. From that follow safety, conservation,
  and that frees undo allocations and commute.
* **UTF-8 input** (`usrlib_rust/src/fmt_io.rs`): the decoder and `get_line`, over an arbitrary stream of read results.
* **Printing and line input in C** (`usrlib/parch/basic_io.c`): `put_int`, `vfprintf`, `tb_getline`.

## How it is laid out

| file | content |
|---|---|
| `Bytes`, `Sets`, `Seqs`, `Arith` | bytes and blocks, finite ranges, sequences taken apart at the end, products and quotients |
| `Folding` | the term that keeps a predicate folded |
| `Slots` | the 1,050,642 places of an inode's block tree in allocation order; how many pages a creating call leaves |
| `Bitmap`, `Dentry` | the bitmaps; directory entries as bytes, the first empty slot, listings |
| `Image` | block ownership as a bijection between filled slots and allocated blocks |
| `Files` | files as byte sequences over the tree; writes |
| `Directory`, `Tree`, `Shape` | directories between operations; host trees and the reader; the tree shape over runs |
| `ParchFS`, `Runs` | the class with the methods of the program; any sequence of operations on it |
| `FreeList`, `Circle`, `Arena`, `Heap` | the list as a value, its circle in memory, free and live units, the class |
| `Keyboard`, `Utf8`, `BasicIO`, `Directives` | read results and line editing, the two codecs, what each print directive means |

Conventions. A `panic`, a failed `assert` or a full bitmap is an outcome `ok == false`; the program exits there, so
nothing is said about the state it leaves. `ok <==> ...` clauses give the exact condition. Predicates such as `Node`,
`Held` or `Slotted` are always true: they are the terms universally quantified facts are attached to. Some predicates
(`Rep`, `Reached`, `Rewritten`, `Copied`, `Sound`, `Allocated` and others) are quantified over the always-true `Opened`
only to keep them folded; lemmas such as `Open`, `RewrittenMeans` or `AllocatedMeans` unfold them.

## Findings

* A creating `get_blkno` in the double-indirect tier always allocates one page more than asked
  (`parchfs/parchfs.cpp:120-128` tests only after an allocation). `GrowPages` has this rule, and every block count below
  follows it. `FreshWritePages` gives the closed form for a file written once.
* `read` wants `off + len` strictly below the size (`parchfs/parchfs.cpp:51`), so the last byte of a file cannot be
  read; `Read` states this, and files are characterised by `Content` instead.
* The free-block counter exceeds the number of clear bits by a constant fixed at construction: 2 when the offset of
  `s_reserve` in its page is at least that of `e_kernel`, otherwise 1 (`FreeAtStart`, `Boot`). Both counters are natural
  numbers in the model, so that each decrement is proved not to underflow; `Rep` keeps them equal to what is free.
* `make_dir` checks that its parent is an inode in use after it has taken the new number, so the new directory may be
  its own parent (`parchfs/parchfs.cpp:418`, `parchfs/parchfs.cpp:461`), and then holds an entry for itself. A run
  leaves a tree exactly when no `make_dir` does this (`ShapeExactly`).
* Writing an empty file allocates one page: `write(0, buf, 0)` makes a creating call for offset 0.
* `tb_malloc` guarantees the payload exactly for requests of at most 2^64 - 16 bytes: above, the 64-bit sum wraps
  (`PayloadHolds`, `PayloadWraps`).
* Counts of 2^32 units and more are cut to 32 bits by `morecore`. Such a request may bring in any number of regions and
  still fit nowhere (`GrowsOften`). At most one region comes in exactly when the count is below 2^32 or some segment is
  large enough (`GrowsOnceExactly`), and exactly then null leaves the heap as it was (`NullKeepsExactly`).
* The UTF-8 decoder accepts overlong forms and a continuation byte in front. `AcceptsShortest` says for which accepted
  sequences the result is what RFC 3629 prescribes, by their first two bytes; `AcceptsMalformed` shows two that are not.
* The 30-byte buffer of `put_int` is enough for every 64-bit number exactly from base 5 on (`FitsExactly`); its callers
  use 10 and 16.

## Which blocks are used

Nothing is ever given back, and a search takes the lowest clear bit. So the blocks in use are always a row from the bottom
of the managed range (`BlocksInUse`), each allocation returns the block above them (`AllocBlk`), and the blocks a file gets
in one write, index blocks included, are consecutive in the order its tree is filled (`RewrittenBlocks`).

## Model

| member | source | states |
|---|---|---|
| Slots.SlotAt | parchfs/parchfs.hpp:74-76 | every position below 1,050,642 is the allocation rank of a place of the block tree: a field of the inode or an entry of an index block |
| Slots.RankInjective | parchfs/parchfs.hpp:74-76 | and of one place only |
| Slots.FillOfMeans | parchfs/parchfs.cpp:81-137 | page `p` is among the first `FillOf(n)` slots exactly when it is among the first `n` pages |
| Slots.RowStep | parchfs/parchfs.cpp:119-129 | one step of the inner loop: the entry is missing exactly past the pages present at the start, and the search ends exactly when a missing one lies past the wanted page |
| Slots.GrowPagesCovers | parchfs/parchfs.cpp:67-139 | a creating call leaves the wanted page present and drops none |
| Slots.DirectTier | parchfs/parchfs.cpp:74-83 | slots a creating call fills in the direct tier; at least 16 when it goes beyond |
| Slots.IndirectTier | parchfs/parchfs.cpp:87-102 | slots a creating call fills in the single-indirect tier, the index block included |
| Slots.Indirect2Tier | parchfs/parchfs.cpp:106-131 | with `d` double-tier pages present, a call for double-tier page `p` leaves `max(d, p + 1) + 1` of them |
| Bitmaps.SetBit | parchfs/parchfs.cpp:3-17 | setting a bit of a byte changes that bit and no other |
| Bitmaps.Bitmap.BitOf | parchfs/parchfs.cpp:250-254 | position `pos` is the bit of value 1, 2, 4, ... 128 in byte `pos / 8`, the lowest first |
| Bitmaps.Bitmap.constructor | parchfs/parchfs.cpp:228-230 | every bit is clear |
| Bitmaps.Bitmap.Set | parchfs/parchfs.cpp:232-236 | bit `pos` is set, no other changes |
| Bitmaps.Bitmap.FirstAvailable | parchfs/parchfs.cpp:256-263 | the lowest clear bit; fails exactly when there is none |
| Bytes.EntryBytes | parchfs/parchfs.cpp:92-95 | entry `i` of an index block is the four bytes from 4 * i on, the lowest first; the rest of the block stays |
| Dentries.EncodedBytes | parchfs/parchfs.hpp:91-97 | the bytes of an entry by position: inode number, permission 0755, type 4 or 16, name length, name field |
| Dentries.DecodeEncode | parchfs/parchfs.hpp:91-97 | the 128 bytes of an entry give the entry back, the unset part of the name included |
| Dentries.EmptyFromFirst | parchfs/parchfs.cpp:163-165 | the slot chosen is empty and no earlier one is |
| Dentries.FirstEmptyDense | parchfs/parchfs.cpp:163-165 | in a directory without empty slots the first empty one is slot size / 128 |
| Dentries.AddEntryDense | parchfs/parchfs.cpp:157-180 | on such a directory adding an entry is appending its bytes |
| Dentries.DenseAppend | parchfs/parchfs.cpp:157-180 | appending an entry with an inode keeps the directory without empty slots |
| Dentries.ListingAppend | parchfs/parchfs.cpp:157-180 | as a list of entries, the directory grows by that entry at the end |
| Image.AtFilled | parchfs/parchfs.cpp:76-121 | an allocation changes the one slot it is for; every other slot of every inode reads as before, zeroed new index blocks included |
| Image.OwnedFilled | parchfs/parchfs.cpp:483-492 | it keeps the bijection between filled slots and allocated blocks and takes one free block |
| Image.LowestIsNext | parchfs/parchfs.cpp:256-263 | the lowest clear bit is the block just above those in use |
| Image.PackedGranted | parchfs/parchfs.cpp:483-492 | handing it out leaves the blocks in use a row from the bottom of the managed range |
| Image.ConsecutiveTrans | parchfs/parchfs.cpp:74-131 | an inode's slots filled in several calls hold consecutive blocks in allocation order, if nothing else was allocated between |
| Image.SharedBox | parchfs/parchfs.cpp:92-135 | two entries stand in the same index block only if they belong to the same inode and the same row |
| Image.PageIsNotBox | parchfs/parchfs.cpp:92-135 | a data page is never an index block of any inode |
| Image.ByteAtFilled | parchfs/parchfs.cpp:489-489 | an allocation changes no byte of any file: a new page reads as the zeroes its absence read as |
| Image.FreeMeans | parchfs/parchfs.cpp:256-263 | none is free exactly when every managed block is owned |
| Image.Pigeonhole | parchfs/parchfs.cpp:113-130 | the first `m` filled slots of an inode hold `m` different allocated blocks |
| Image.FillBound | parchfs/parchfs.cpp:113-130 | filled slots and free blocks together are at most the managed blocks, hence fewer than 2^19 |
| Image.BlocksAccounted | parchfs/parchfs.cpp:483-492 | free blocks and the filled slots of all inodes add up to the managed blocks |
| Files.ExtendedCore | parchfs/parchfs.cpp:67-139 | a creating call keeps the invariant of the block layer |
| Files.ByteAtPageStored | parchfs/parchfs.cpp:43-43 | a copy into a page shows in that page of that file, and in no other file |
| Files.RewrittenStored | parchfs/parchfs.cpp:35-47 | one more chunk after those written so far extends the written range by the chunk |
| Files.RewrittenBlocks | parchfs/parchfs.cpp:30-48 | the blocks a write takes, index blocks included, are the lowest free ones in the order the tree is filled |
| Files.PagesArePrefix | parchfs/parchfs.cpp:81-137 | the pages with a block are exactly the first `pages` ones, so the three tiers are a flat list |
| Files.BlocksDistinct | parchfs/parchfs.cpp:67-139 | no block stands in two slots of any inodes, and each lies outside the ranges marked at construction |
| Files.ChunkPagesClosed | parchfs/parchfs.cpp:35-47 | where all pages are present, the copy loop adds one page for each chunk in the double-indirect tier, and none otherwise |
| Files.FreshWritePages | parchfs/parchfs.cpp:30-48 | pages after a fresh write of `n` bytes: n / 4096 + 1 below the double tier, else one more and one for each chunk there |
| Files.ViewRewritten | parchfs/parchfs.cpp:30-48 | a write changes one file, as `Overwrite` says, and no other |
| Files.FilesRewritten | parchfs/parchfs.cpp:30-48 | the same for the sequence of all files |
| Files.FilesAdded | parchfs/parchfs.cpp:157-180 | seen from outside, `add_dentry` adds the entry to one directory and changes nothing else |
| Files.SlotInBlock | parchfs/parchfs.cpp:149-154 | the inode number read through the block is zero exactly when the slot of the directory's bytes is empty |
| Directories.LinkCostMeans | parchfs/parchfs.cpp:141-180 | one more entry takes 0, 1 or 2 blocks, by the directory's size |
| Directories.AddedSound | parchfs/parchfs.cpp:157-180 | in a sound directory the entry is appended, at that cost |
| Directories.HealthyAdded | parchfs/parchfs.cpp:157-180 | and the invariant between operations is kept |
| Directories.NewDirMade | parchfs/parchfs.cpp:415-452 | the two entries of a new directory make it `.` then `..`, for one block, all other files as before |
| Directories.LinkMade | parchfs/parchfs.cpp:461-468 | the parent's entry is appended, no other file changes, the invariant holds |
| Directories.HealthyWritten | parchfs/parchfs.cpp:563-563 | writing a regular file keeps the invariant and is seen as overwriting that file |
| ParchFSImage.SuperBlock.Init | parchfs/parchfs.cpp:266-279 | the counters start at the inode count and at the managed length in blocks; magic number and root inode are set |
| ParchFSImage.FreeAtStart | parchfs/parchfs.cpp:389-407 | managed length in blocks minus clear bits is 2 or 1, by the offsets of `s_reserve` and `e_kernel` in their pages |
| ParchFSImage.EmptyHealthy | parchfs/parchfs.cpp:389-407 | after construction the invariants hold with nothing in use, whatever the blocks held |
| ParchFSImage.ParchFS.constructor | parchfs/parchfs.cpp:389-407 | bitmaps, counters and inode table agree with the empty state; blocks outside the marked ranges are free |
| ParchFSImage.ParchFS.MarkUsed | parchfs/parchfs.cpp:395-407 | both bitmaps have set exactly block 0, the kernel's blocks and the blocks from one below the reserved range |
| ParchFSImage.ParchFS.AllocBlk | parchfs/parchfs.cpp:483-492 | the lowest free block, which is the top of the managed range less the blocks free; zeroed, marked in both bitmaps, counted; fails exactly when none is free |
| ParchFSImage.ParchFS.BlocksInUse | parchfs/parchfs.cpp:483-492 | in every state the blocks in use are those from the bottom of the managed range to that block, and the clear bits are the rest of it |
| ParchFSImage.ManagedOutside | parchfs/parchfs.cpp:399-407 | no block handed out overlaps the kernel, the reserved range or the metadata |
| ParchFSImage.ParchFS.GetBlk | parchfs/parchfs.cpp:537-541 | the block, its two asserts being the precondition |
| ParchFSImage.ParchFS.GrowDirect | parchfs/parchfs.cpp:74-80 | the direct tier is filled to the page, existing blocks kept; succeeds exactly when enough blocks are free |
| ParchFSImage.ParchFS.GrowIndirect | parchfs/parchfs.cpp:87-98 | the same for the single-indirect tier and its index block |
| ParchFSImage.ParchFS.GrowIndirect2 | parchfs/parchfs.cpp:106-131 | the unbounded loop ends, stays within 1024 entries, and leaves one page past the wanted one; fails exactly when blocks are too few |
| ParchFSImage.ParchFS.ReadLeaf | parchfs/parchfs.cpp:132-138 | a present page is within reach, so "File size too large." is never raised |
| ParchFSImage.ParchFS.GetBlkno | parchfs/parchfs.cpp:67-139 | both modes: exact success condition, the page's slot as the answer, old mappings and bytes unchanged, pages grown by the closed rule |
| ParchFSImage.ParchFS.Write | parchfs/parchfs.cpp:30-48 | exactly [off, off + len) is replaced, gaps are zero, the size is the maximum, other files unchanged; succeeds exactly when the blocks needed are free |
| ParchFSImage.ParchFS.Read | parchfs/parchfs.cpp:50-65 | succeeds exactly for off + len strictly below the size on a file with pages, and returns those bytes of the file |
| ParchFSImage.ParchFS.GetDentry | parchfs/parchfs.cpp:141-155 | the block and place of any slot `pos`, room made past it; fails exactly for a non-directory or too few blocks |
| ParchFSImage.ParchFS.AddDentry | parchfs/parchfs.cpp:157-180 | the loop with the growing bound ends with the entry in the first empty slot, earlier entries unchanged |
| ParchFSImage.ParchFS.AllocInode | parchfs/parchfs.cpp:474-481 | the next inode number in order, cleared, counters kept equal to inodes not in use |
| ParchFSImage.ParchFS.MakeDir | parchfs/parchfs.cpp:415-472 | files afterwards are the old ones, the new directory, which begins with `.` for itself and `..` for its parent, and the parent with one more entry; exact success condition and cost |
| ParchFSImage.ParchFS.MakeFile | parchfs/parchfs.cpp:504-535 | the same for an empty regular file |
| ParchFSImage.ParchFS.WriteFile | parchfs/parchfs.cpp:563-563 | a write through the inode number: one file overwritten, exact cost |
| ParchFSImage.ParchFS.MakeFs | parchfs/parchfs.cpp:548-566 | the recursive copy lays the listing out below its directory and touches no earlier file; it is a run of `make_dir`, `make_file` and writes; succeeds exactly when names, inodes and blocks are enough |
| ParchFSImage.Boot | parchfs/parchfs.cpp:389-413 | the constructor to its end: an empty root directory that is its own parent; needs one free block; what the free-block counter shows above the blocks free |
| ParchFSImage.BuildImage | parchfs/parchfs.cpp:548-566 | for every host tree: built exactly when it fits, and then the reader from the root inode recovers it and the directories form a tree, `.` and `..` included; the clear bits are the top of the managed range |
| Trees.FileCostIs | parchfs/parchfs.cpp:30-48 | blocks a fresh file of `n` bytes takes, index blocks included, in closed form in all three tiers |
| Trees.PrunePlain | parchfs/parchfs.cpp:554-565 | a tree of directories and regular files only is recovered whole |
| Trees.PruneSkips | parchfs/parchfs.cpp:554-565 | what is neither directory nor regular file leaves no trace |
| Trees.ReadKidsHold | parchfs/parchfs.cpp:548-566 | a reader finds in a directory's slots the nodes laid out there, with names, kinds, nesting and contents |
| Trees.KidsFrame | parchfs/parchfs.cpp:548-566 | a laid-out listing depends on its own inodes and entries only: later additions do not disturb it |
| Trees.LaidFile | parchfs/parchfs.cpp:559-563 | after a file is made and written the listing laid out so far has it as its next node |
| Trees.LaidDir | parchfs/parchfs.cpp:554-558 | the same for a directory whose own listing was laid out in between |
| Trees.FitsLast | parchfs/parchfs.cpp:550-565 | a listing fits exactly when its last node fits after the others |
| Trees.RootReads | parchfs/parchfs.cpp:548-566 | from the root inode the reader gives back the host's tree, without what `make_fs` skips |
| Trees.NodeCostIs | parchfs/parchfs.cpp:548-566 | blocks for a subtree are the sum of its directories' and files' own blocks |
| Trees.KidsCostIs | parchfs/parchfs.cpp:548-566 | added up entry by entry, a directory's blocks depend on its number of entries only |
| TreeShape.NewDirEntries | parchfs/parchfs.cpp:432-452 | the two entries of a new directory, field by field: `.` names itself, `..` its parent, both directories, the rest of the name zero |
| TreeShape.MadeDirDots | parchfs/parchfs.cpp:415-472 | so for every parent `make_dir` accepts |
| TreeShape.MadeDirEntry | parchfs/parchfs.cpp:461-468 | the parent's last entry has the new number, the directory type and the name; past the name stands what was on the stack |
| TreeShape.MadeFileEntry | parchfs/parchfs.cpp:522-532 | after `make_file`: the new number, the file type and the name, zeroes past it |
| TreeShape.ShapeGrows | parchfs/parchfs.cpp:454-480 | a new inode with its entry appended to an existing directory keeps the tree shape |
| TreeShape.ShapeStep | parchfs/parchfs.cpp:415-535 | one operation keeps the tree shape and every place already given |
| TreeShape.RunShape | parchfs/parchfs.cpp:409-535 | in every state of a run from a tree each non-root inode has a place in a directory with a smaller number; each directory begins with `.` for itself and `..` for that one |
| TreeShape.MadeDirLeads | parchfs/parchfs.cpp:415-472 | what `make_dir` does below an existing directory is such an operation |
| TreeShape.CopiedFileLeads | parchfs/parchfs.cpp:559-563 | what `make_fs` does for a file is two of them |
| TreeShape.LeadsToShape | parchfs/parchfs.cpp:548-566 | where a run leads from a tree there is a tree, and no inode has lost its place |
| ParchFSRuns.Do | parchfs/parchfs.cpp:415-563 | one operation on the image succeeds exactly when the files, their pages and the free blocks allow it, and changes them as `Done` says |
| ParchFSRuns.Run | parchfs/parchfs.cpp:415-563 | any sequence of operations goes through exactly when each finds what it needs; no assert or panic before |
| ParchFSRuns.DirsGrowBy | parchfs/parchfs.cpp:157-180 | no operation loses a directory or an entry of one |
| ParchFSRuns.ImproperNamesItself | parchfs/parchfs.cpp:461-468 | a directory made its own parent has its entry in itself |
| ParchFSRuns.ShapeExactly | parchfs/parchfs.cpp:415-535 | a run from a tree leaves a tree exactly when it makes no directory its own parent |
| ParchFSRuns.Session | parchfs/parchfs.cpp:389-563 | a fresh image and any operations on it: exact success condition, final files, pages and free blocks, which bits are clear, and when the directories form a tree |
| TreeShape.ShapeReached | parchfs/parchfs.cpp:409-535 | every inode in use is reached from the root |
| TreeShape.OneEntry | parchfs/parchfs.cpp:454-469 | each is named by one entry that is not a dot entry, and the root by none |
| FreeList.UnitsSize | usrlib/parch/utils.c:79-98 | the lengths of the segments add up to the number of free units |
| FreeList.CanonicalUnique | usrlib/parch/utils.c:79-98 | the list is determined by the set of free units: `base` and the maximal runs |
| FreeList.ApartGap | usrlib/parch/utils.c:84-86 | there is a gap in the list for a block of units of its own |
| FreeList.InsertCanonical | usrlib/parch/utils.c:87-97 | freeing with both merging tests keeps the list sorted, apart and maximal |
| FreeList.InsertUnits | usrlib/parch/utils.c:87-97 | and adds exactly the block's units |
| FreeList.TakeCanonical | usrlib/parch/utils.c:129-139 | cutting a block from a segment, or taking it whole, keeps the list canonical |
| FreeList.TakeUnits | usrlib/parch/utils.c:129-139 | and removes exactly the block's units, none of which stay in the list |
| FreeList.FreeUndoesTake | usrlib/parch/utils.c:79-139 | freeing a block just taken gives the same segments |
| FreeList.FreeInAnyOrder | usrlib/parch/utils.c:79-98 | blocks freed in any two orders give the same segments |
| Circles.SplicedChained | usrlib/parch/utils.c:87-97 | what `tb_free` writes to the headers leaves one circle through the new list |
| Circles.CutChained | usrlib/parch/utils.c:129-137 | what `tb_malloc` writes leaves one circle through the shortened list |
| Circles.JoinsSplice | usrlib/parch/utils.c:87-96 | the two merging tests in this order have the effect of the four cases together |
| Arenas.SafeFree | usrlib/parch/utils.c:79-98 | freeing keeps free units, live blocks and `base` disjoint and their union the units obtained |
| Arenas.SafeHold | usrlib/parch/utils.c:108-112 | so does a fresh region, held by the allocator |
| Arenas.SafeTake | usrlib/parch/utils.c:129-139 | so does handing out a block, which was not live before |
| Heaps.StopsAtGap | usrlib/parch/utils.c:84-86 | the two tests of the search stop it at the gap of the block and nowhere else |
| Heaps.PayloadHolds | usrlib/parch/utils.c:124-124 | the block's payload holds the request exactly when the request is at most 2^64 - 16 bytes |
| Heaps.PayloadWraps | usrlib/parch/utils.c:124-124 | the largest request yields a block of one unit, the header alone |
| Heaps.UnitsLeast | usrlib/parch/utils.c:123-123 | the block is the smallest that holds the header and the request; a request that wraps gets one unit |
| Heaps.GrowsOnce | usrlib/parch/utils.c:139-141 | below 2^32 units at most one region is asked for, and after it the request fits |
| Heaps.GrowsOften | usrlib/parch/utils.c:101-107 | from 2^32 units on, any number of regions may come in while the request fits nowhere |
| Heaps.GrowsOnceExactly | usrlib/parch/utils.c:101-141 | at most one region comes in exactly when the count is below 2^32 or a segment is large enough |
| Heaps.NullKeepsExactly | usrlib/parch/utils.c:139-141 | null leaves list, live blocks and units as they were exactly in the same cases |
| Heaps.FirstFitUnique | usrlib/parch/utils.c:128-129 | there is one first fit on a lap |
| Heaps.LapAt | usrlib/parch/utils.c:128-141 | at the cursor: a large enough node is the first fit and not `base`; the lap is over exactly at `freep`, and then no segment fits |
| Heaps.AllocatedMeans | usrlib/parch/utils.c:117-144 | null below 2^32 units changes nothing; otherwise the result is cut from the first fit after `freep`, before or after growth |
| Heaps.AllocatedWhere | usrlib/parch/utils.c:128-138 | the block is the end of the first large enough segment after `freep`; the segment is shortened or leaves the list, and `freep` is the node before it |
| Heaps.LapFromMeans | usrlib/parch/utils.c:97-114 | after growth the lap starts at the last node below the region that came in |
| Heaps.Conserved | usrlib/parch/utils.c:79-144 | units obtained are free units plus live units; live blocks are disjoint from each other and from the list |
| Heaps.FreeUndoesMalloc | usrlib/parch/utils.c:79-144 | freeing what was allocated without growth restores list, live blocks and units |
| Heaps.FreedAll | usrlib/parch/utils.c:79-98 | frees in a row are insertions in a row; exactly the other blocks stay live |
| Heaps.FreesCommute | usrlib/parch/utils.c:79-98 | live blocks freed in any two orders leave the same state of list, live blocks and units |
| Heaps.PayloadApart | usrlib/parch/utils.c:138-138 | what a caller writes into its block touches no header the allocator reads |
| Heaps.Heap.constructor | usrlib/parch/utils.c:76-77 | before the first call the list is `base` alone and nothing is live |
| Heaps.Heap.Sbrk | usrlib/parch/utils.c:108-110 | a region apart from all earlier ones, or failure |
| Heaps.Heap.Store | usrlib/parch/utils.c:138-138 | a caller's write into the payload of a live block keeps the allocator's state |
| Heaps.Heap.Search | usrlib/parch/utils.c:84-86 | from any `freep` the pointer chase ends, at the node before the block's gap |
| Heaps.Heap.JoinAbove | usrlib/parch/utils.c:87-91 | the header writes of the first merging test |
| Heaps.Heap.JoinBelow | usrlib/parch/utils.c:92-96 | the header writes of the second merging test |
| Heaps.Heap.TbFree | usrlib/parch/utils.c:79-98 | a live block is inserted into the list, is no longer live, and `freep` is the node before it; all invariants hold |
| Heaps.Heap.Morecore | usrlib/parch/utils.c:100-115 | a region of exactly the larger of 4096 and the count, cut to 32 bits, enters the list; null exactly when `tb_sbrk` failed, with nothing changed |
| Heaps.Heap.Unlink | usrlib/parch/utils.c:130-136 | the header writes of an exact fit and of a trimmed one |
| Heaps.Heap.TbMalloc | usrlib/parch/utils.c:117-144 | terminates for every request; null exactly when `tb_sbrk` failed; the outcome is `Allocated`, with a block of the least size |
| Keyboard.EditedAppend | usrlib_rust/src/fmt_io.rs:89-102 | keys in two parts act as the parts in turn |
| Keyboard.EditedPlain | usrlib_rust/src/fmt_io.rs:101-101 | keys without deletes are kept as typed |
| Keyboard.DeletesUndo | usrlib_rust/src/fmt_io.rs:95-100 | as many deletes as keys typed before take back exactly those |
| Utf8.AccumulatorFits | usrlib_rust/src/fmt_io.rs:63-72 | on any bytes the accumulator stays below 2^31 and no bit is shifted out |
| Utf8.EncodeIsSequence | usrlib_rust/src/fmt_io.rs:53-63 | the encoding of RFC 3629, section 3, has the lead byte and length the decoder expects and spells the character |
| Utf8.SequenceDecodes | usrlib_rust/src/fmt_io.rs:49-78 | every lead byte with its continuation bytes yields the number it spells, or the replacement character if that is no scalar value |
| Utf8.DecodeEncode | usrlib_rust/src/fmt_io.rs:49-78 | one character comes back, and exactly its bytes are consumed |
| Utf8.DecodeEncodeAll | usrlib_rust/src/fmt_io.rs:49-78 | every sequence of scalar values comes back, and exactly its bytes are consumed |
| Utf8.AcceptsShortest | usrlib_rust/src/fmt_io.rs:49-78 | an accepted sequence is the encoding of what it yields exactly when its first two bytes are those of a shortest form |
| Utf8.AcceptsMalformed | usrlib_rust/src/fmt_io.rs:57-63 | two malformed sequences read as the null character |
| Utf8.BreaksOff | usrlib_rust/src/fmt_io.rs:65-68 | a sequence that breaks off yields the replacement character and swallows the byte that breaks it |
| Utf8.BeginsNothing | usrlib_rust/src/fmt_io.rs:62-62 | 0xFE and 0xFF yield the replacement character and are consumed alone |
| Utf8.LeadBytes | usrlib_rust/src/fmt_io.rs:54-63 | length and contribution of every first byte, by ranges |
| Utf8.ReadFails | usrlib_rust/src/fmt_io.rs:39-50 | the end of input is error 2000, a read error is passed on, and one event is consumed |
| Utf8.ReadFailsInside | usrlib_rust/src/fmt_io.rs:65-66 | the same inside a sequence, whose bytes are lost |
| Utf8.OneChar | usrlib_rust/src/fmt_io.rs:80-102 | each character of a line by its code point: 10 and 13 end it, 127 takes back the last one, all others are kept; and what is printed |
| Utf8.LineFails | usrlib_rust/src/fmt_io.rs:90-90 | an error ends the line, and what was typed is lost |
| Utf8.LineOfKeys | usrlib_rust/src/fmt_io.rs:87-104 | a line of any characters, deletes among them, comes back as the stack machine edits it, with what was echoed |
| Utf8.Console.GetByte | usrlib_rust/src/fmt_io.rs:39-47 | the next byte, or the end-of-input or read error |
| Utf8.Console.GetCharNoEcho | usrlib_rust/src/fmt_io.rs:49-78 | the loop computes `NextChar` and consumes what it consumes |
| Utf8.Console.GetTail | usrlib_rust/src/fmt_io.rs:65-77 | the loop over continuation bytes, its accumulator below 2^31 throughout |
| Utf8.Console.GetChar | usrlib_rust/src/fmt_io.rs:80-85 | the same with the echo |
| Utf8.Console.GetLine | usrlib_rust/src/fmt_io.rs:87-104 | the loop computes `Line`: result, remaining input and everything printed, errors included |
| BasicIO.ValueOfDigits | usrlib/parch/basic_io.c:45-48 | the digits of a number denote it |
| BasicIO.ParseText | usrlib/parch/basic_io.c:25-54 | what is printed denotes the number, sign and all, for every 64-bit input, the least included |
| BasicIO.DigitsAtMost | usrlib/parch/basic_io.c:45-48 | a number below b^k has at most k digits in every base from b on |
| BasicIO.FitsExactly | usrlib/parch/basic_io.c:27-53 | the text of every 64-bit number fits the buffer exactly for bases from 5 on |
| Directives.DigitsNumeral | usrlib/parch/basic_io.c:5-48 | the digits are those of the base, capital letters from ten on, without a leading zero |
| Directives.NumeralUnique | usrlib/parch/basic_io.c:45-48 | a number has one such numeral |
| Directives.PrintsSigned | usrlib/parch/basic_io.c:75-78 | %d prints the numeral of the signed number in base 10, after a minus sign if it is negative |
| Directives.PrintsUnsigned | usrlib/parch/basic_io.c:79-82 | %u prints that of the unsigned number in base 10 |
| Directives.PrintsLow | usrlib/parch/basic_io.c:83-86 | %l prints that of the low 32 bits in base 10 |
| Directives.PrintsHex | usrlib/parch/basic_io.c:87-90 | %x prints that of the unsigned number in base 16 |
| Directives.PrintsPointer | usrlib/parch/basic_io.c:91-95 | %p prints 0x and then that |
| Directives.PrintsChar | usrlib/parch/basic_io.c:103-106 | %c prints the character of the low eight bits |
| Directives.PrintsString | usrlib/parch/basic_io.c:96-102 | %s prints the string, or (null) |
| Directives.PrintsOther | usrlib/parch/basic_io.c:107-116 | any other character after a percent sign is printed with it, a second percent sign once |
| Directives.PrintsPlain | usrlib/parch/basic_io.c:62-72 | other characters print as they are; a percent sign at the end prints nothing |
| Directives.FormattedAppend | usrlib/parch/basic_io.c:59-119 | formats that end outside a directive print one after the other, each with its own arguments |
| BasicIO.EscapedPrints | usrlib/parch/basic_io.c:56-120 | a text with its percent signs doubled prints as itself and leaves what follows alone |
| BasicIO.PendingStep | usrlib/parch/basic_io.c:59-119 | one round of the state machine prints its part of the format's output |
| BasicIO.OneKey | usrlib/parch/basic_io.c:162-182 | each key by its byte: 10, 13, 4 and 255 end the line and are not stored, 127 takes back the last byte, all others are stored; and what is printed |
| BasicIO.NoKey | usrlib/parch/basic_io.c:133-147 | a read that brings nothing or fails ends the line, and nothing is printed |
| BasicIO.KeysEchoPlain | usrlib/parch/basic_io.c:143-155 | other keys are echoed as they are |
| BasicIO.TypeKeys | usrlib/parch/basic_io.c:162-182 | while the line stays below the bound, the keys act as the unbounded stack machine |
| BasicIO.LineEnded | usrlib/parch/basic_io.c:166-169 | a line ended by a key is the stack machine's result, and the key is consumed |
| BasicIO.LineFull | usrlib/parch/basic_io.c:162-162 | a line that fills the buffer ends there, and what follows stays unread |
| BasicIO.LineBounded | usrlib/parch/basic_io.c:157-185 | the line leaves a byte for the terminating zero, whatever is typed |
| BasicIO.Terminal.Puts | usrlib/parch/basic_io.c:20-23 | prints the characters up to the first zero |
| BasicIO.Terminal.FillDigits | usrlib/parch/basic_io.c:42-48 | the digits stand right before the final zero; no write leaves the buffer |
| BasicIO.Terminal.PutInt | usrlib/parch/basic_io.c:25-54 | prints the text of the number |
| BasicIO.Terminal.VFPrintf | usrlib/parch/basic_io.c:56-120 | prints `Formatted` of the format and its arguments |
| BasicIO.Terminal.GetC | usrlib/parch/basic_io.c:133-155 | the key, 0xFF where no byte came, and its echo |
| BasicIO.Terminal.GetLine | usrlib/parch/basic_io.c:157-185 | the buffer holds the line of `TypeLine` and a zero, nothing past `length` is written, input and echo as they should be |

## Left out

- ParchFSImage.ParchFS.Write: `off + len` is unbounded; a sum that wraps in 64 bits asks for pages no image has.
- ParchFSImage.ParchFS.AllocInode: past number 8191 the program indexes outside its inode table; the model fails there.
- ParchFSImage.ParchFS.MakeDir: permissions, owner, times, flags and the link count, which no code maintains, are not fields of the model's inode; an entry's permission is the constant 0755.
- ParchFSImage.ParchFS.constructor: the host file, its mapping and the symbol file; `e_kernel` and `s_reserve` are parameters, with at least two block numbers between them and the metadata inside the reserved range.
- ParchFSImage.ParchFS.MakeFs: the host directory is a value, so its iteration order is the listing's order; the path argument is only for logging.
- Metadata as bytes: bitmaps, superblock and inode table are objects of their own instead of bytes of the reserved blocks, which are marked used and never handed out.
- The inode table holds records as values: a field update replaces the record.
- `clear`, `set_val` and `write_blk` are never called; `clear` sets the bit it should clear.
- Uniqueness of names in a directory comes from the host's directories and is not checked by the program.
- Logging, `dump` and `main`.
- Heaps.Heap.TbFree: only pointers that are live may be freed; what the C code does with others is undefined.
- Heaps.Heap.Sbrk: the kernel's choice is arbitrary among regions apart from all earlier ones and above `base`; addresses count 16-byte units, so alignment is not modelled.
- Heaps.Heap.Store: payload bytes are the two fields of the headers that would stand there; single bytes are not modelled.
- `tb_memcpy`, `tb_strcpy`, `tb_strlen`, `tb_memset`, `tb_strcmp`: single loops that would add only easy members.
- Utf8.Console.GetLine: printing is assumed to succeed; characters are printed as such, their encoding on output is not modelled.
- BasicIO.Terminal.VFPrintf: arguments must match the format, since the C code has no other defined meaning; strings are taken up to their terminating zero; the return value, which the code leaves undefined, is not modelled.
- BasicIO.Terminal.GetC: `char` is unsigned as on the RISC-V target, so the byte 0xFF and a failed read look the same.
- System-call wrappers, build scripts, the user programs, and the Rust allocator, which wraps a crate that is not part of this repository.
