# Verified models of YJK/OS

YJK/OS is a small 32-bit kernel. This project models its allocators, its balanced
tree, its file reader, its scheduler, its paging and several device protocols in
Dafny and proves what they keep in every reachable state. Code that runs with
interrupts disabled is one atomic step.

| file | models |
|---|---|
| `Basics.dfy` | types and constants of the platform |
| `Words.dfy`, `Bitmaps.dfy` | 32-bit words by their bits; the word bitmap as a sequence of truth values |
| `BuddyTree.dfy`, `Pmm.dfy`, `PhysMem.dfy` | the buddy page allocator: canonical form on values, one pool, the list of pools |
| `Lists.dfy` | the intrusive doubly linked list |
| `AvlTrees.dfy`, `BstNodes.dfy`, `Bst.dfy` | the AVL tree: tree values, node structures, operations |
| `Ext2Layout.dfy`, `Ext2Inode.dfy` | the ext2 block iterator against the inode layout; reading, skipping and seeking against a byte array |
| `SchedQueues.dfy`, `WaitList.dfy`, `Scheduler.dfy` | queue rotation over whole runs; the mutex wait list over whole runs; threads, mutexes and the scheduler steps |
| `Mmu.dfy` | page tables and the processor's translation cache |
| `Vmm.dfy` | address ranges and demand paging |
| `Heap.dfy` | the block heap with its bytes |
| `Terminal.dfy` | the text terminal against an unbounded document and a display |
| `Ps2Commands.dfy` | the keyboard command queue |
| `Psf.dfy` | writer and reader of the PSF2 Unicode table |
| `Ata.dfy` | sector reads with retries, port I/O and DMA |

`dafny verify dfyconfig.toml` checks the whole project. Objects the source updates in
place are classes whose methods tie the new state to a reference value; the laws of
those values are lemmas.

## What the proofs found

Each of these is a place where the source does not do what one would expect. The
members in parentheses state the exact condition and, behind a semicolon, a concrete case.

- The single-bit operations of the bitmap let an offset in the word behind the last one through (`Bitmaps.Bitmap.SetBit`).
- A double free of pages is noticed only while the block has not merged with its neighbour (`Pmm.Pool.FreeFromPool`; `Pmm.FreedTwice`).
- Removing a tree node with two children loses the left subtree of its predecessor and can leave the tree unbalanced (`AvlTrees.RemovedBothExactly`, `Bst.Bst.RemoveNode`; `Bst.KeyTakenAlong`, `Bst.BalanceNotRestored`).
- The end of a file is not always recognised by the block iterator (`Ext2Layout.EndNoticedExactly`; `Ext2Layout.EmptyTableMissed`, `Ext2Layout.TripleEndMissed`), and reading goes on behind it (`Ext2Inode.ReadsPastEnd`).
- A read that ends exactly with the last block as a whole leaves the reader on a wrong position (`Ext2Inode.InodeContext.ReadInode`; `Ext2Inode.OneBlockTwice`), and skipping or seeking to the end fails (`Ext2Inode.InodeContext.SkipRead`, `Ext2Inode.InodeContext.SeekSet`).
- A scheduler pick can come up empty although a thread is ready (`SchedQueues.EmptyPickExactly`; `SchedQueues.ReadyThreadMissed`), and a thread that waits for a mutex then spins with interrupts disabled (`Scheduler.Machine.WaitMutex`; `Scheduler.OwnerNeverRuns`).
- The wait list of the mutexes is served newest first, so waiting there is not bounded (`WaitList.PassedOverBound`; `Scheduler.NewcomersGoFirst`).
- A page whose caching attribute changes is not always flushed (`Mmu.Mmu.MapSinglePage`, `Mmu.Mmu.RemapSinglePage`, `Mmu.Mmu.ScratchMap`; `Mmu.StaleMemoryType`); frames and rights are never stale.
- A page table with a directory index of 256 or more is created in the wrong place (`Mmu.Mmu.CreatePd`), and arch_mmu_map reports success when it runs out of memory (`Mmu.Mmu.Map`; `Mmu.UnmappedSuccess`).
- `vmm_alloc_object` returns the address of a released object on failure (`Vmm.AddressSpace.AllocObject`), and freed ranges never merge (`Vmm.FragmentedRefused`).
- The overflow check of `heap_alloc` omits the poison bytes (`Heap.EnoughBlocksExactly`; `Heap.WrongAllocation`), and an allocation that needs exactly the free blocks is refused (`Heap.Heap.Alloc`; `Heap.ExactFitRefused`). Memory below one page must not be added (`Heap.PoolLayout`).
- A keyboard command can take a data byte it did not ask for (`Ps2Commands.Keyboard.ByteReceived`; `Ps2Commands.StrayExpectation`).
- The Unicode table has no element for FFFF, which an illegal font can name (`Psf.ReadEntries`, `Psf.BeyondExactly`; `Psf.OverrunFont`); a written font never does (`Psf.RoundTrip`).

## Model

| member | source | states |
|---|---|---|
| `Bitmaps.NeededWordCount` | `kernel/lib/bitmap.c:50-52` | the least number of words whose bits cover the request |
| `Bitmaps.FindFirstSetBit` | `kernel/lib/bitmap.c:9-24` | the least set bit of a word at or after the start, -1 exactly if there is none |
| `Bitmaps.FindLastContiguousBit` | `kernel/lib/bitmap.c:26-41` | the end of the run of set bits that begins at the start position, within one word |
| `Bitmaps.BitOfBitmask` | `kernel/lib/bitmap.c:43-48` | the mask has exactly the bits of its range |
| `Bitmaps.Bitmap.FindFirstSet` | `kernel/lib/bitmap.c:54-67` | the least member of the bit set at or after the start across words, -1 exactly if none |
| `Bitmaps.Bitmap.FindLastContiguous` | `kernel/lib/bitmap.c:69-93` | the last position of the run that begins at the start position, across word boundaries |
| `Bitmaps.Bitmap.FindSetBits` | `kernel/lib/bitmap.c:95-112` | the least position with the wanted number of consecutive members, -1 exactly if there is none |
| `Bitmaps.Bitmap.AreBitsSet` | `kernel/lib/bitmap.c:114-140` | true exactly if the range is non-empty, lies inside the bitmap and every bit of it is set |
| `Bitmaps.Bitmap.SetBits` | `kernel/lib/bitmap.c:142-161` | the view becomes the old view with exactly the range set, words beyond the end ignored |
| `Bitmaps.Bitmap.ClearBits` | `kernel/lib/bitmap.c:163-182` | the view becomes the old view with exactly the range cleared |
| `Bitmaps.Bitmap.SetBit` | `kernel/lib/bitmap.c:184-189` | one bit is added to the set; the word behind the last one is touched exactly for an offset in it |
| `Bitmaps.Bitmap.ClearBit` | `kernel/lib/bitmap.c:191-196` | one bit is removed from the set; the word behind the last one is touched exactly for an offset in it |
| `Bitmaps.Bitmap.IsBitSet` | `kernel/lib/bitmap.c:198-203` | membership, false outside, except exactly for an offset in the word behind the last one, where the answer is open |
| `BuddyTree.IndexInjective` | `kernel/mem/pmm.c:97-117` | different (level, block) pairs have different bits |
| `BuddyTree.IndexSurjective` | `kernel/mem/pmm.c:97-117` | every bit below twice the pool minus one belongs to some (level, block) |
| `BuddyTree.Take` | `kernel/mem/pmm.c:132-185` | clearing the bit of a maximal vacant block hands out exactly its pages and keeps the canonical form |
| `BuddyTree.Split` | `kernel/mem/pmm.c:165-175` | setting the other half while descending keeps the canonical form |
| `BuddyTree.Merge` | `kernel/mem/pmm.c:208-237` | absorbing a vacant neighbour turns the returning block into its parent and keeps the canonical form |
| `BuddyTree.SiblingLive` | `kernel/mem/pmm.c:221-231` | when the neighbour bit is clear the parent cannot be vacant, so merging stops exactly there |
| `BuddyTree.Release` | `kernel/mem/pmm.c:208-231` | setting the bit of a block without vacant neighbour releases it into canonical form |
| `BuddyTree.CanonicalIsUnique` | `kernel/mem/pmm.c:132-241` | two bitmaps for the same live pages agree on every tree bit: no history is kept |
| `BuddyTree.FreeBlocksTile` | `kernel/mem/pmm.c:132-241` | each page is live and under no set bit, or not live and under exactly one |
| `BuddyTree.VacantHasMaximal` | `kernel/mem/pmm.c:147-164` | a vacant block always lies in a block whose bit is set, so the search cannot miss it |
| `BuddyTree.EmptyPool` | `kernel/mem/pmm.c:340-379` | the bitmap with only the root bit describes a pool with nothing handed out |
| `BuddyTree.LeftmostBegins` | `kernel/mem/pmm.c:165-178` | the block that splitting ends with begins where the block that was split began |
| `Pmm.OrderIsLeast` | `kernel/mem/pmm.c:136-142` | the rounded-up size is the least power of two that covers the request |
| `Pmm.CalculatePagepoolSizes` | `kernel/mem/pmm.c:81-95` | the largest power of two that fits, and at least twice the pool minus one bits |
| `Pmm.BitIndicesRangeForLevel` | `kernel/mem/pmm.c:97-108` | the first and last bit of a level |
| `Pmm.BitIndexForBlock` | `kernel/mem/pmm.c:110-117` | the bit of a block, refusal exactly for a block number beyond its level |
| `Pmm.RoundUp` | `kernel/mem/pmm.c:136-142` | the least power of two at or above the request, failure exactly if it does not fit 32 bits |
| `Pmm.DecodeOffset` | `kernel/mem/pmm.c:205-207` | an offset decodes to the one block that starts there, and is refused exactly if none does |
| `Pmm.Pool.BlockSizeToLevel` | `kernel/mem/pmm.c:119-127` | the level whose blocks have the given size |
| `Pmm.Pool.FindBlock` | `kernel/mem/pmm.c:147-164` | the first set bit of the finest level at or above the wanted one that has any, nothing found exactly if none has |
| `Pmm.Pool.SplitDown` | `kernel/mem/pmm.c:165-178` | carves the leftmost block of the wanted level, which was vacant, and keeps the canonical form |
| `Pmm.Pool.AllocFromPool` | `kernel/mem/pmm.c:132-185` | fails exactly if no aligned vacant block of the rounded size exists; otherwise hands out such a block and nothing else, with the canonical form kept |
| `Pmm.Pool.FreeLoop` | `kernel/mem/pmm.c:208-240` | the merging loop ends in the canonical bitmap of the remaining live pages |
| `Pmm.Pool.FreeFromPool` | `kernel/mem/pmm.c:187-241` | a live block is taken back and the panic not reached; a pointer at no block of its size is refused; a block that is not all live is refused if and only if its own bit is set, and otherwise the bitmap describes no set of live pages any more |
| `Pmm.FreedTwice` | `kernel/mem/pmm.c:187-241` | a pool of two pages in which the second release of a merged page is accepted |
| `Pmm.Pool.AllocThenFree` | `kernel/mem/pmm.c:132-241` | freeing what was just allocated restores every tree bit |
| `PhysMem.PhysicalMemory.RegisterMem` | `kernel/mem/pmm.c:340-379` | the new pools tile the registered range without gap or overlap, each the largest power of two that fits what is left, all free, older pools untouched |
| `PhysMem.HalfInOnePiece` | `kernel/mem/pmm.c:340-395` | of freshly registered memory every request of at most one half succeeds in one piece |
| `PhysMem.PhysicalMemory.AllocAt` | `kernel/mem/pmm.c:381-395` | one pool: the pages handed out were live in no pool and become exactly the additional live pages |
| `PhysMem.PhysicalMemory.Alloc` | `kernel/mem/pmm.c:381-395` | fails exactly if no pool has room; otherwise returns aligned pages from the first pool with room that overlap no live page and that can be given back |
| `PhysMem.PhysicalMemory.Free` | `kernel/mem/pmm.c:397-418` | exactly the pages of a live block stop being live; of all other releases inside a pool exactly those of no block and of a free block with its bit set are refused; a pointer into no pool is refused; a null pointer or zero pages change nothing |
| `Lists.List.InsertFront` | `kernel/lib/list.c:9-20` | the represented sequence: the node becomes the first, links exact in both directions |
| `Lists.List.InsertBack` | `kernel/lib/list.c:22-33` | the represented sequence: the node becomes the last, links exact in both directions |
| `Lists.List.InsertAfter` | `kernel/lib/list.c:35-46` | the represented sequence: the node is inserted behind the given one |
| `Lists.List.InsertBefore` | `kernel/lib/list.c:48-59` | the represented sequence: the node is inserted in front of the given one |
| `Lists.List.RemoveFront` | `kernel/lib/list.c:61-73` | the represented sequence: the first node leaves, null exactly on the empty list |
| `Lists.List.RemoveBack` | `kernel/lib/list.c:75-87` | the represented sequence: the last node leaves, null exactly on the empty list |
| `Lists.List.RemoveNode` | `kernel/lib/list.c:89-106` | the represented sequence: exactly the node leaves, wherever it is |
| `AvlTrees.OrderedIsIncreasing` | `kernel/lib/bst.c:102-139` | search order is the same as strictly increasing keys in order |
| `AvlTrees.RotateKeepsOrder` | `kernel/lib/bst.c:342-413` | a rotation keeps the in-order sequence of keys and of nodes |
| `AvlTrees.RebalancedIsAvl` | `kernel/lib/bst.c:490-518` | the one or two rotations at a node whose AVL children differ by at most two give an AVL tree at most one level less deep |
| `AvlTrees.DepthIsLogarithmic` | `kernel/lib/bst.c:490-518` | a balanced tree of depth d has at least Fib(d+2)-1 nodes |
| `AvlTrees.PathWithinDepth` | `kernel/lib/bst.c:342-413` | no way from a node to the root is longer than the depth |
| `AvlTrees.RepairStep` | `kernel/lib/bst.c:490-518` | repairing one node of the walk moves the pending change to its parent or ends it; the tree is balanced again if the changed subtree is, and that subtree stays in one piece |
| `AvlTrees.AboveByKey` | `kernel/lib/bst.c:310-325` | climbing to the first larger key finds the nearest ancestor that has the node on its left |
| `AvlTrees.AboveIsNext` | `kernel/lib/bst.c:310-325` | for a node without right child that ancestor is the next in order |
| `AvlTrees.NextInRightSubtree` | `kernel/lib/bst.c:310-325` | with a right child the next in order is the leftmost node of the right subtree |
| `AvlTrees.InsertedAdds` | `kernel/lib/bst.c:102-139` | insertion adds exactly the node and its key and keeps search order |
| `AvlTrees.InsertedPending` | `kernel/lib/bst.c:102-139` | after insertion into an AVL tree only the path above the new leaf may be out of balance, by one level |
| `AvlTrees.RemovedTakes` | `kernel/lib/bst.c:141-227` | removal takes exactly the node and its key, and what is lost with it, and keeps search order |
| `AvlTrees.RemovedPending` | `kernel/lib/bst.c:141-227` | after the removal of any node of an AVL tree only the path above waits for repair, by one level |
| `AvlTrees.RemovedBothLoses` | `kernel/lib/bst.c:172-208` | removal of a node with two children drops exactly the left subtree of the predecessor besides the node |
| `AvlTrees.RemovedBothExactly` | `kernel/lib/bst.c:172-208` | so it loses only the removed node if and only if the predecessor has no left child |
| `AvlTrees.RemovedBalance` | `kernel/lib/bst.c:172-208` | what is left of the subtree is balanced if and only if, by the balance factors before the call, no node on the right edge of the left subtree becomes left-heavy and the node itself does not become right-heavy |
| `BstNodes.RecalculateHeight` | `kernel/lib/bst.c:415-432` | exact heights off the path to the root become exact heights everywhere |
| `BstNodes.MinOf` | `kernel/lib/bst.c:276-284` | the first node in order of a subtree, null for none |
| `BstNodes.MaxOf` | `kernel/lib/bst.c:286-294` | the last node in order of a subtree, null for none |
| `BstNodes.Successor` | `kernel/lib/bst.c:310-325` | the next node in order, null exactly after the last |
| `BstNodes.RecalculateBf` | `kernel/lib/bst.c:452-488` | balance factors wrong in the subtree and above it become exact everywhere |
| `Bst.DirInParent` | `kernel/lib/bst.c:296-308` | the side on which the parent has the node |
| `Bst.Bst.RotateSubtree` | `kernel/lib/bst.c:342-413` | the structure represents the rotated tree: links, parent links, order, heights and balance factors all exact |
| `Bst.Bst.CheckAndRebalance` | `kernel/lib/bst.c:490-518` | from a change by one level below the start node the walk restores the balance of every node outside a given unbalanced subtree, keeping keys, nodes, links and caches |
| `Bst.Bst.InsertUnbalanced` | `kernel/lib/bst.c:102-139` | the plain insertion with exact caches; refused exactly for a present key, with the tree left alone, and for a node whose height field is not zero |
| `Bst.Bst.Insert` | `kernel/lib/bst.c:233-240` | for every AVL tree: exactly the new key is added, and links, order, cached heights and factors and the AVL balance of every node hold; refused exactly for a present key or a height field that is not zero |
| `Bst.Bst.ReplaceByPredecessor` | `kernel/lib/bst.c:172-192` | the pointer writes for a node with two children: the structure represents the tree in which the predecessor has taken its place, without the left subtree of the predecessor |
| `Bst.Bst.RemoveUnbalanced` | `kernel/lib/bst.c:141-227` | for every node: the structure represents the tree with the node removed, with exact caches |
| `Bst.Bst.RemoveNode` | `kernel/lib/bst.c:242-249` | for every node of an AVL tree: exactly its key goes, with the keys lost besides it; links, order and caches hold; the tree stays an AVL tree if and only if the node has at most one child, or neither the node nor the right edge of its left subtree tips by the balance factors before the call |
| `Bst.KeyTakenAlong` | `kernel/lib/bst.c:172-249` | a balanced tree of four keys in which the removal of one key makes another one unfindable |
| `Bst.BalanceNotRestored` | `kernel/lib/bst.c:172-249` | a balanced tree of four keys that is not balanced after a removal that loses no other key |
| `Bst.Bst.Find` | `kernel/lib/bst.c:251-266` | the node with the key, null exactly if the key is absent |
| `Ext2Layout.IteratorFollowsLayout` | `kernel/fs/fs_ext2.c:254-448` | on a hole-free file the k-th block of the iterator is the block of the inode layout for logical block k, for all k and block sizes |
| `Ext2Layout.U32Means` | `kernel/lib/miscmath.c:54-59` | four bytes that are the little-endian base-256 digits of a number decode to it |
| `Ext2Layout.U32Injective` | `kernel/lib/miscmath.c:54-59` | different table entries are different addresses, all below 2^32 |
| `Ext2Layout.ZeroIsLast` | `kernel/fs/fs_ext2.c:370-424` | a zero block that is handed out is the last one the iterator yields |
| `Ext2Layout.MissingBlock` | `kernel/fs/fs_ext2.c:254-448` | what the iterator yields for a missing block in each of the four regions |
| `Ext2Layout.EndNoticedExactly` | `kernel/fs/fs_ext2.c:254-448` | the end of a hole-free file is recognised if and only if the next block is neither the zero first entry of an existing singly indirect table nor behind a zero entry of the triply indirect table while disk block 0 starts with a non-zero word |
| `Ext2Layout.EmptyTableMissed` | `kernel/fs/fs_ext2.c:370-424` | a disk and a file of twelve blocks whose thirteenth block comes out as block 0 |
| `Ext2Layout.TripleEndMissed` | `kernel/fs/fs_ext2.c:266-314` | for every block size a disk and a file, ending inside its triply indirect table, whose end is not recognised |
| `Ext2Layout.EndInsideTripleTable` | `kernel/fs/fs_ext2.c:266-314` | a zero entry of the triply indirect table is taken for a table: what comes out is read through disk block 0 |
| `Ext2Inode.InodeContext.NextTriplyBlockPtr` | `kernel/fs/fs_ext2.c:266-314` | the next doubly indirect table named by the triply indirect one, position kept exact |
| `Ext2Inode.InodeContext.NextDoublyBlockPtr` | `kernel/fs/fs_ext2.c:316-368` | the next singly indirect table, through both double and triple indirection |
| `Ext2Inode.InodeContext.NextSinglyBlockPtr` | `kernel/fs/fs_ext2.c:370-424` | the next block pointer of the singly indirect stream |
| `Ext2Inode.InodeContext.constructor` | `kernel/fs/fs_ext2.c:675-730` | nothing has been taken from any pointer stream |
| `Ext2Inode.InodeContext.NextInodeBlock` | `kernel/fs/fs_ext2.c:429-448` | the c-th successful call makes the c-th block of the pointer stream current, and fails exactly where the stream ends |
| `Ext2Inode.InodeContext.Advance` | `kernel/fs/fs_ext2.c:429-448` | while the stream yields blocks the step succeeds and reaches the next one |
| `Ext2Inode.InodeContext.Rewind` | `kernel/fs/fs_ext2.c:450-469` | the reader stands at byte 0 again |
| `Ext2Inode.InodeContext.GatherBlocks` | `kernel/fs/fs_ext2.c:573-612` | consecutive disk blocks are gathered into runs whose bytes are those of the blocks of the stream in order |
| `Ext2Inode.InodeContext.ReadInodeBlocks` | `kernel/fs/fs_ext2.c:573-618` | whole blocks from the current one on, equal to the concatenated blocks of the stream, with the step to the next block |
| `Ext2Inode.InodeContext.ReadWholeBlocks` | `kernel/fs/fs_ext2.c:634-646` | the direct path reads as many whole blocks as the request covers and keeps or exactly loses its place |
| `Ext2Inode.InodeContext.ReadBuffered` | `kernel/fs/fs_ext2.c:647-668` | the buffered path returns the bytes of the current block from the position on |
| `Ext2Inode.InodeContext.ReadInode` | `kernel/fs/fs_ext2.c:620-673` | returns exactly the bytes that the pointer stream leads to from the position on, which are those of the file if it has no holes; succeeds exactly inside the stream, and keeps its place if and only if it does not finish on the last block as a whole |
| `Ext2Inode.StreamIsFile` | `kernel/fs/fs_ext2.c:254-448` | inside a hole-free file the bytes of the stream are the bytes of the file, whatever the stream yields behind its end |
| `Ext2Inode.InodeContext.AnyRequest` | `kernel/fs/fs_ext2.c:620-673` | every request at every position is covered by the stream or reaches over its end, so no read is excluded |
| `Ext2Inode.InodeContext.SkipRead` | `kernel/fs/fs_ext2.c:486-533` | moves the position by the length, succeeding exactly if the target can be reached in the stream |
| `Ext2Inode.InodeContext.SeekSet` | `kernel/fs/fs_ext2.c:535-571` | succeeds exactly for an offset inside the stream and then stands there |
| `Ext2Inode.SkipFromStart` | `kernel/fs/fs_ext2.c:486-533` | from the start exactly the positions before the end can be skipped to |
| `Ext2Inode.LastBlockTwice` | `kernel/fs/fs_ext2.c:620-673` | after a file of one block is read as a whole the next read yields the block again |
| `Ext2Inode.OneBlockTwice` | `kernel/fs/fs_ext2.c:620-673` | a disk and an inode of one block on which this happens |
| `Ext2Inode.ReadsPastEnd` | `kernel/fs/fs_ext2.c:620-673` | a disk and an inode of twelve blocks from which thirteen blocks are read |
| `SchedQueues.PickKeepsBudget` | `kernel/tasks/sched.c:88-139` | in every reachable state the k-th queue has at most k opportunities left, the current one has spent some and the front queue has none |
| `SchedQueues.PickRotates` | `kernel/tasks/sched.c:104-139` | next is the first queue behind the current one that has a thread and opportunities left, if there is one, otherwise the first such queue at all; a reset comes exactly if there is none, and picks the front queue |
| `SchedQueues.PickLeaves` | `kernel/tasks/sched.c:88-139` | the picked queue loses one opportunity; after a reset every queue has one more than its index, before that one |
| `SchedQueues.NobodyPassedOver` | `kernel/tasks/sched.c:104-139` | in every run between two picks of one queue without a reset each other queue that is ready all the time is picked |
| `SchedQueues.RoundShares` | `kernel/tasks/sched.c:88-139` | in every run a queue that holds a thread when a round ends was picked in it exactly as often as its place in the list says, unless it is the current one |
| `SchedQueues.TurnComes` | `kernel/tasks/sched.c:165-193` | a pick of a queue takes its longest waiting thread, and leaves the other queues alone |
| `SchedQueues.NewestLast` | `kernel/tasks/sched.c:232-245` | a queued thread stands behind everybody in the queue of its priority, and nobody loses a place |
| `SchedQueues.FrontPickedAtReset` | `kernel/tasks/sched.c:88-139` | the front queue is picked exactly by the picks that reset |
| `SchedQueues.PickSpendsOne` | `kernel/tasks/sched.c:104-139` | each pick spends exactly one opportunity of the round |
| `SchedQueues.RoundIsTriangular` | `kernel/tasks/sched.c:88-102` | a reset hands out n(n+1)/2 opportunities |
| `SchedQueues.RoundBudget` | `kernel/tasks/sched.c:88-139` | over any run without reset the k-th queue is picked at most k times and there are at most n(n+1)/2 picks |
| `SchedQueues.RoundServesAll` | `kernel/tasks/sched.c:88-139` | over any run, a queue that holds a thread when a round ends has been picked in that round |
| `SchedQueues.NoTwoEmptyPicks` | `kernel/tasks/sched.c:165-193` | two picks in a row never both come up empty while a thread is queued |
| `SchedQueues.EmptyPickExactly` | `kernel/tasks/sched.c:104-139` | a pick comes up empty if and only if no queue is eligible and the front queue is empty |
| `SchedQueues.ReadyThreadMissed` | `kernel/tasks/sched.c:165-193` | from no queues at all a run in which two threads are queued, one leaves after its turn and the other is queued again, and the next pick comes up empty |
| `SchedQueues.NoStarvation` | `kernel/tasks/sched.c:104-139` | every pick brings a queued thread strictly closer to being taken |
| `SchedQueues.BoundedWaiting` | `kernel/tasks/sched.c:104-139` | in every run a queued thread is dispatched within n(n+1)/2 times its place in the queue plus two picks from the queues; threads served from the mutex wait list, which go first, are counted by WaitList.PassedOverBound |
| `WaitList.PassedOverBound` | `kernel/tasks/sched.c:141-163` | in every run a waiter is passed over while its mutex is free at most once for each waiter in front of it, present or still to come |
| `WaitList.NewerGoFirst` | `kernel/tasks/sched.c:141-230` | for every n a run of the list in which a waiter is passed over n times while its mutex is free |
| `Scheduler.NewcomersGoFirst` | `kernel/tasks/sched.c:141-230` | for every n a run of the whole scheduler from the boot thread on in which the mutex becomes free n times and a thread that waits for it all the time never gets it |
| `Scheduler.Machine.constructor` | `kernel/tasks/sched.c:274-283` | the boot thread runs, nothing is queued, every mutex is unlocked |
| `Scheduler.Machine.GetQueue` | `kernel/tasks/sched.c:35-86` | the queue of the priority, created in order of priority if missing, with no thread moved |
| `Scheduler.Machine.ResetQueues` | `kernel/tasks/sched.c:88-102` | the k-th queue gets k opportunities |
| `Scheduler.Machine.PickNextQueue` | `kernel/tasks/sched.c:104-139` | exactly the pick of the reference function, -1 exactly without queues |
| `Scheduler.Machine.PickFromWaitlist` | `kernel/tasks/sched.c:141-163` | the first waiter whose mutex is free gets it and leaves the list; none exactly if every waited-for mutex is held |
| `Scheduler.Machine.PickOnce` | `kernel/tasks/sched.c:165-193` | a waiter that can have its mutex or else the oldest thread of the next queue; nothing exactly if both come up empty |
| `Scheduler.PickLiveMeans` | `kernel/tasks/sched.c:165-193` | the repeated pick never chooses a thread that is shutting down, deletes no other thread, and is one pick if nobody is shutting down |
| `Scheduler.FirstLiveWaiter` | `kernel/tasks/sched.c:141-193` | the first waiter whose mutex is free and that is not shutting down is chosen, whatever stands in front of it |
| `Scheduler.Machine.PickNextTask` | `kernel/tasks/sched.c:165-193` | exactly the choice of the repeated pick, in every state; never a thread that is shutting down and never the running one; empty without threads that shut down if and only if every waiter is blocked and the next queue pick is empty |
| `Scheduler.Machine.Enqueue` | `kernel/tasks/sched.c:232-245` | the thread goes to the front of the queue of its priority; all queues afterwards are given |
| `Scheduler.Machine.Schedule` | `kernel/tasks/sched.c:247-272` | each live thread stays in exactly one place; queues, waiters, threads and running thread afterwards are given in every state; the old thread is queued exactly if another one runs now |
| `Scheduler.ThreadReaped` | `kernel/tasks/sched.c:165-272` | a run in which the scheduler deletes the only queued thread and goes on with the caller |
| `Scheduler.Machine.WaitMutex` | `kernel/tasks/sched.c:206-230` | the caller waits and a different thread runs, which holds what it had been waiting for; it hangs if and only if the repeated pick finds nothing, which without threads that shut down means that every waiter is blocked and the next queue pick is empty |
| `Scheduler.Machine.TryLock` | `kernel/tasks/mutex.c:12-19` | succeeds exactly on an unlocked mutex, which then has the caller as its one owner |
| `Scheduler.Machine.Lock` | `kernel/tasks/mutex.c:21-29` | a free mutex is taken at once; a held one makes the caller wait, and whoever runs next owns what it waited for; it hangs under the same exact condition as the wait |
| `Scheduler.OwnerNeverRuns` | `kernel/tasks/sched.c:141-230` | a run from the boot thread on that hangs in the wait for a mutex whose owner is queued |
| `Scheduler.Machine.UnlockOwned` | `kernel/tasks/mutex.c:31-36` | the mutex has no owner afterwards; locked stays the same as owned for all mutexes |
| `Scheduler.Machine.Spawn` | `kernel/tasks/sched.c:232-245` | a new thread is live and queued, everything else in place |
| `Mmu.Indices` | `kernel/arch/i586/mmu.c:59-64` | directory and table index are quotient and remainder of the page number |
| `Mmu.FlagsInNumbers` | `kernel/arch/i586/mmu_ext.h:5-33` | the flags of an entry and of a mapping by their binary digits |
| `Mmu.MappedEntryMeans` | `kernel/arch/i586/mmu.c:157-168` | the written entry is present, has exactly the frame and exactly the rights asked for |
| `Mmu.SkipExactlyWhenHarmless` | `kernel/arch/i586/mmu.c:144-158` | map_single_page skips the flush if and only if the old entry maps no more than the new one |
| `Mmu.RemappedEntryMeans` | `kernel/arch/i586/mmu.c:228-253` | a remapped entry keeps its frame, has exactly the rights asked for, and the flush is skipped if and only if that is harmless |
| `Mmu.Mmu.MapSinglePage` | `kernel/arch/i586/mmu.c:141-172` | every cached translation stays sound although the processor may walk between any two stores; only this entry changes; cached memory types stay right if the flush is made or no uncached entry is involved, and otherwise a processor that walks at every store has a wrong one |
| `Mmu.StaleMemoryType` | `kernel/arch/i586/mmu.c:141-172` | for every page, frame and state with right memory types a run of two mappings that ends with a wrong one in the cache |
| `Mmu.Mmu.CreatePd` | `kernel/arch/i586/mmu.c:125-139` | every cached translation stays sound; exactly the directory entry of the index truncated to 8 bits changes, so the table appears if and only if the index is below 256; the entry has the frame and leaves every right to the table |
| `Mmu.Mmu.CreateTables` | `kernel/arch/i586/mmu.c:185-198` | creates the missing tables without changing any mapping, each in the next free frame and with every right, and succeeds if and only if there are at least as many free frames as missing tables |
| `Mmu.Mmu.Map` | `kernel/arch/i586/mmu.c:174-212` | page by page the range maps the consecutive frames if reading is asked for and there are enough frames for the missing tables, and otherwise nothing is mapped; a mapped page permits exactly what was asked for, as far as a directory entry that was there allows it; no other page changes, every cached translation stays sound; success is reported whenever reading is asked for |
| `Mmu.UnmappedSuccess` | `kernel/arch/i586/mmu.c:174-212` | a machine without free frames on which success is reported for a page that is not mapped |
| `Mmu.Mmu.CheckPresence` | `kernel/arch/i586/mmu.c:214-226` | success exactly for a mapped page |
| `Mmu.Mmu.RemapSinglePage` | `kernel/arch/i586/mmu.c:228-254` | every cached translation stays sound across the stores; only this entry changes; memory types as for a mapping |
| `Mmu.Mmu.Remap` | `kernel/arch/i586/mmu.c:256-275` | all or nothing, failing exactly on a missing page; frames stay, rights become those asked for, cached translations stay sound |
| `Mmu.Mmu.Unmap` | `kernel/arch/i586/mmu.c:277-296` | all or nothing, failing exactly on a missing page; entries are cleared and no translation of the range stays cached |
| `Mmu.Mmu.ScratchMap` | `kernel/arch/i586/mmu.c:300-328` | the scratch page maps the frame for the kernel only, cached translations stay sound; memory types as for a mapping |
| `Mmu.Mmu.Emulate` | `kernel/arch/i586/mmu.c:74-100` | succeeds exactly for an access that both tables permit, with the frame of the entry, and says exactly when a table or a page is missing |
| `Mmu.Mmu.VirtualToPhysical` | `kernel/arch/i586/mmu.c:102-116` | the frame plus the offset, failure exactly for a page that is not mapped |
| `Mmu.Mmu.CacheGrantsNoMore` | `kernel/arch/i586/mmu.c:141-328` | in a safe state an access that the cache lets through is permitted by the tables and goes to the same frame |
| `Mmu.Mmu.CureSpuriousFault` | `kernel/mem/vmm.c:606-612` | a fault is spurious exactly if the tables permit the access, and after the flush no cached translation refuses it |
| `Vmm.SizeToPages` | `kernel/mem/vmm.c:393-397` | the least number of pages that covers the size |
| `Vmm.TakeObject` | `kernel/mem/vmm.c:64-81` | the first free range that is large enough, none exactly if none is |
| `Vmm.PlaceObject` | `kernel/mem/vmm.c:108-137` | the place behind the last range below, and the check against the following element never refuses a range that is apart from all others, although the list is unsorted |
| `Vmm.AddressSpace.constructor` | `kernel/mem/vmm.c:351-365` | one free range covers the whole space |
| `Vmm.AddressSpace.AllocObject` | `kernel/mem/vmm.c:393-435` | gets memory exactly if some free range is large enough, namely the front of the first such range, which moves to its place in the list; free and live ranges still tile the space; records and frames stay exact; an object is returned in either case, on failure one that is not live |
| `Vmm.FragmentedRefused` | `kernel/mem/vmm.c:64-137` | free ranges never merge: a space of two pages, all free, that refuses two pages |
| `Vmm.AddressSpace.FindUncommitted` | `kernel/mem/vmm.c:334-345` | a record whose object covers the page, none exactly if no record does |
| `Vmm.AddressSpace.PageFault` | `kernel/mem/vmm.c:599-663` | commits exactly the missing pages of live readable objects, one page and at most one fresh frame, with the part of the physical range that the page stands for or the new frame; a page bit is set if and only if the page is unmapped, and a record exists exactly while a bit remains |
| `Vmm.AddressSpace.FreeObject` | `kernel/mem/vmm.c:516-544` | the range is free again, none of its pages is mapped, every frame of an anonymous object is given back, all other pages are untouched |
| `Heap.EnoughBlocksExactly` | `kernel/mem/heap.c:509-520` | a size that passes the overflow check gets enough blocks if and only if its sum with the poison does not wrap |
| `Heap.FewestBlocks` | `kernel/mem/heap.c:509-520` | and not one block more than it needs |
| `Heap.WrappedSize` | `kernel/mem/heap.c:509-520` | the smallest size that passes the check and gets no block at all |
| `Heap.HeapPool.TakeRun` | `kernel/mem/heap.c:113-139` | claims the first run of free blocks, none exactly if there is none, with the used count exact; a request for no block finds the first free one and claims nothing |
| `Heap.HeapPool.GiveRun` | `kernel/mem/heap.c:570-574` | exactly the blocks of the run become free, with the used count exact |
| `Heap.PoolLayout` | `kernel/mem/heap.c:453-480` | pool header, bitmap and blocks fit into the memory if and only if it has a whole page; then there is a bit for every block, and not one block more would fit the whole pages |
| `Heap.Heap.AddMem` | `kernel/mem/heap.c:453-507` | the new pool is aligned, fits, wastes not one block of the whole pages, is counted as free, and leaves every allocation alone |
| `Heap.FreshHeapServes` | `kernel/mem/heap.c:453-541` | on a fresh heap every allocation that leaves a block free succeeds |
| `Heap.Heap.AllocFromPool` | `kernel/mem/heap.c:113-157` | a new allocation disjoint from all others with header, data and poison inside its blocks; bits, counters and the data of the others exact; for a size whose sum wraps an allocation that does not fit its blocks |
| `Heap.Heap.Alloc` | `kernel/mem/heap.c:509-541` | for every size fails exactly for zero, an oversize, not strictly more free blocks than computed, or no run; otherwise the first run of the first pool with one, as alloc_from_pool, cleared on request |
| `Heap.WrongAllocation` | `kernel/mem/heap.c:509-541` | a heap of two free blocks that hands out almost 4 GiB with no block |
| `Heap.ExactFitRefused` | `kernel/mem/heap.c:509-541` | a heap of two free blocks in one run that refuses an allocation of two blocks |
| `Heap.Heap.Free` | `kernel/mem/heap.c:543-581` | the panic is unreachable for a live pointer; exactly its blocks become free and get the release pattern; the data of all others stays |
| `Heap.Heap.Realloc` | `kernel/mem/heap.c:583-610` | on success the new memory has the new size and starts with the old bytes, the old pointer is dead and every other allocation keeps its data; on failure allocations and counters are unchanged and, without the zero flag, the memory and the invariant too |
| `Heap.Heap.RunIsFree` | `kernel/mem/heap.c:113-157` | a run of set bits belongs to no allocation |
| `Terminal.DocumentIsText` | `kernel/io/vt100tty.c:58-75` | wrapping loses nothing: the document of a text without carriage returns joins back to the text |
| `Terminal.WrapsWhenFull` | `kernel/io/vt100tty.c:58-75` | a line is continued in the next one only when it is full |
| `Terminal.CarriageReturn` | `kernel/io/vt100tty.c:58-75` | after a carriage return a text goes over the start of the same line and leaves the rest |
| `Terminal.Tty.constructor` | `kernel/io/vt100tty.c:126-143` | a blank screen of the empty document, every cell flagged |
| `Terminal.Tty.MoveLinesUp` | `kernel/io/vt100tty.c:25-42` | every line moves up; flags move along with a scroll hook and are set without one |
| `Terminal.Tty.AdvanceLine` | `kernel/io/vt100tty.c:20-56` | the document gets a new line and the screen shows its last lines, with or without the scroll hook; a clear flag still means that the display matches |
| `Terminal.Tty.WriteChar` | `kernel/io/vt100tty.c:58-75` | the screen follows the reference document by one character |
| `Terminal.Tty.Write` | `kernel/io/vt100tty.c:77-86` | after any bytes the cells are the last rows of the wrapped document, the cursor is in range and clear flags mean a matching display |
| `Terminal.Tty.Flush` | `kernel/io/vt100tty.c:111-118` | after the update hook the display shows the last rows of the document |
| `Ps2Commands.WireInOrder` | `kernel/dev/ps2kbd.c:68-93` | commands appear on the wire in request order |
| `Ps2Commands.WireCounts` | `kernel/dev/ps2kbd.c:68-93` | each command is on the wire exactly as often as it was sent |
| `Ps2Commands.Keyboard.Request` | `kernel/dev/ps2kbd.c:604-644` | the command is queued behind all others and sent at once exactly if it is alone |
| `Ps2Commands.Keyboard.CmdFinished` | `kernel/dev/ps2kbd.c:68-93` | the oldest command ends, is released if asynchronous, and the next one is sent once |
| `Ps2Commands.Keyboard.AckReceived` | `kernel/dev/ps2kbd.c:314-337` | ends the oldest command, or waits for its data if it needs any |
| `Ps2Commands.Keyboard.ResendReceived` | `kernel/dev/ps2kbd.c:339-363` | sends the oldest command again while retries remain, and fails it otherwise |
| `Ps2Commands.Keyboard.EchoReceived` | `kernel/dev/ps2kbd.c:365-383` | ends the oldest command exactly if it is an echo |
| `Ps2Commands.Keyboard.ResponseByteReceived` | `kernel/dev/ps2kbd.c:385-403` | the byte becomes the response of the oldest command, which ends; with no command left the expectation stays |
| `Ps2Commands.Keyboard.ByteReceived` | `kernel/dev/ps2kbd.c:542-598` | what each byte does: an acknowledgement, a request to resend, an echo, and response data; at most the oldest command ends and the protocol invariant holds; data comes to be expected for a command that did not ask exactly when one that did has ended without its data |
| `Ps2Commands.StrayExpectation` | `kernel/dev/ps2kbd.c:339-403` | a run in which a key byte becomes the answer to a command that asked for none |
| `Ps2Commands.Keyboard.Collect` | `kernel/dev/ps2kbd.c:645-664` | a synchronous command is released once, by its requester, with its response |
| `Ps2Commands.Keyboard.RequestOrder` | `kernel/dev/ps2kbd.c:604-664` | in every reachable state the wire has the commands in request order |
| `Ps2Commands.Keyboard.Protocol` | `kernel/dev/ps2kbd.c:604-664` | in every reachable state: at most four sends each, only the oldest awaits a response, nothing queued is released and nothing is released twice |
| `Psf.WriteGlyph` | `support/thirdparty/terminus-font-4.49.1/bin/bdftopsf.py:206-233` | the bytes of the codes of one glyph, its own code first |
| `Psf.WriteTable` | `support/thirdparty/terminus-font-4.49.1/bin/bdftopsf.py:205-235` | the codes of each glyph followed by FF |
| `Psf.DecodesEncoded` | `kernel/raster/psf.c:23-79` | decoding undoes encoding for every code, whatever follows |
| `Psf.NextCodeByValues` | `kernel/raster/psf.c:23-79` | the value and the length of the next code by the values of its bytes; any other byte stands for itself |
| `Psf.ShortestForm` | `support/thirdparty/terminus-font-4.49.1/bin/bdftopsf.py:206-233` | a written code has the fewest bytes that hold it |
| `Psf.WillEolOrEof` | `kernel/raster/psf.c:154-164` | true exactly if the data or the glyph ends inside the code |
| `Psf.ReadCode` | `kernel/raster/psf.c:185-206` | the next code and its length, an illegal byte standing for itself |
| `Psf.ReadEntries` | `kernel/raster/psf.c:166-215` | the table holds exactly the assignments of the byte stream, several codes per glyph are noticed exactly, and the element behind the table is written if and only if the bytes name FFFF |
| `Psf.BeyondExactly` | `kernel/raster/psf.c:166-215` | the assignments name FFFF if and only if EF BF BF or its four-byte form stands at a code position before the last glyph ends |
| `Psf.OverrunFont` | `kernel/raster/psf.c:166-215` | a font of one glyph that names FFFF |
| `Psf.ScanFont` | `support/thirdparty/terminus-font-4.49.1/bin/bdftopsf.py:227-235` | scanning a written font, whatever follows it, yields the codes of its glyphs that fit the table and ends at the glyph count |
| `Psf.LastGlyphWins` | `kernel/raster/psf.c:207-213` | of all glyphs that list a code the last one is in the table |
| `Psf.RoundTrip` | `kernel/raster/psf.c:166-215` | reading the written table of any font, whatever follows it, maps each code of the basic plane to the last glyph listing it, takes sequences apart into single codes, touches no other entry, writes nothing behind the table, and ends at the glyph count |
| `Ata.Controller.DmaInit` | `kernel/arch/i586/dev/idebus.c:338-379` | the descriptors describe exactly the length, each but the last of full size, the last one marked |
| `Ata.Controller.DmaGather` | `kernel/arch/i586/dev/idebus.c:412-428` | the buffer holds exactly the transferred bytes, each byte copied once, nothing else touched |
| `Ata.Controller.TryReadPio` | `kernel/dev/atadisk.c:395-416` | reads as many sectors as the drive delivers into the buffer and succeeds if and only if these are all; never anything outside its part is written |
| `Ata.Controller.TryRead` | `kernel/dev/atadisk.c:418-449` | succeeds if and only if the drive delivers all sectors, which are then in the buffer, by either way of transfer |
| `Ata.Controller.ReadChunk` | `kernel/dev/atadisk.c:459-486` | at most four attempts for a chunk, giving up only after the fourth failure |
| `Ata.Controller.ReadSectors` | `kernel/dev/atadisk.c:451-493` | success leaves exactly the sectors in the buffer through ordered chunks of 256 or of all that are left, each tried until the drive delivers it and at most four times; failure only after four failures of one chunk |
| `Ata.FourShortAnswers` | `kernel/dev/atadisk.c:451-493` | a read fails only on four answers in a row that are short of the same chunk |

## Left out

- Bst.Bst.RemoveNode: the check of the whole tree around every operation, which panics on a broken tree, is not modelled.
- Bst.Bst.Insert: the panics, on a present key and on a height field that is not zero, are a result `false`; nothing is stated of the tree after the second one.
- Ext2Inode.InodeContext.ReadInode: disk errors and failing buffer allocation are not modelled; the iterator yields at least the first block, on which the source insists.
- Mmu.Mmu.Map: missing page tables have a directory index below 256, because `Mmu.Mmu.CreatePd` puts others in the wrong place and the next store faults; ranges lie outside the recursive window; accessed and dirty flags are not modelled.
- Mmu.Mmu.Unmap: `Done` stands for the 1 that the source returns there.
- Vmm.AddressSpace.AllocObject: heap allocation succeeds; an empty free list, on which the source asserts, counts as no room.
- Vmm.AddressSpace.PageFault: page tables are a map from pages to frames and the verdict of arch_mmu_emulate is a parameter; rights are the subject of `Mmu`.
- Heap.Heap.AddMem: memory below one page is excluded, for which `Heap.PoolLayout` shows that the pool does not fit; header sizes and alignment are parameters; the initial pool is added like any other.
- Heap.Heap.Free: a pointer that is not live is excluded, because the source then reads arbitrary memory as a header; the bytes of the headers are not modelled, a live pointer leads to its allocation directly.
- Heap.Heap.Realloc: sizes whose sum wraps are excluded, because `Heap.Heap.Alloc` ruins the heap for them before the copy; with the zero flag a failing call clears memory from address 0 on, and the invariant is stated only if that stays below the pools.
- Heap.Heap.AllocFromPool: addresses do not wrap at 4 GiB when the data of a wrong allocation is filled.
- PhysMem.PhysicalMemory.RegisterMem: the allocation of pool metadata succeeds and the address range does not wrap.
- Scheduler.Machine.Lock: queue allocation succeeds; a thread that shuts down while it owns a mutex keeps it.
- Ps2Commands.Keyboard.Request: the port accepts every byte and requests are not interrupted by another request.
- Terminal.Tty.Flush: the update hook draws every flagged cell, as the framebuffer terminal does; line update flags, which no driver reads, are not modelled; cells are indexed by row and column instead of one flat offset.
- Ata.Controller.ReadSectors: how many sectors the drive delivers for each command is arbitrary; resets, waiting and the write path are not modelled.
- SEEK_CUR and SEEK_END, writes, directories, mounting and path resolution of ext2.
- vmm_alloc_object_at, the variant of the address space without NEW_VMM, and user address spaces.
- heap_calloc and heap_realloc_array, which only multiply sizes, and the self tests of heap and page pools.
- The scancode state machine, key maps, framebuffer drawing, VFS paths, kernel objects, window server, port I/O, interrupt and descriptor tables, boot code, shell programs and the remaining font tools.
