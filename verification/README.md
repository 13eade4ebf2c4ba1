# Verified models of the systems exercises

The repository holds several small stateful C programs. This project models the parts of them whose correctness is
decided by the code itself, and proves what they promise:

- two heap allocators (`malloclab/mm.c`, `malloclab/mm-gback-implicit.c`), with the checks that the driver
  (`malloclab/mdriver.c`) makes on the first: boundary tags tile the heap, the free lists hold the free blocks by size,
  and every live payload stays where it is and what it is;
- red-black and splay trees (`malloclab/tree.h`), with their links, colors and rotations, the height of the former and
  the amortized cost of the latter;
- the intrusive list (`malloclab/list.c`) and its in-place natural merge sort;
- the task-claiming protocol of the fork/join pool (`threadlab/tests/threadpool.c`), and its clients: the n-queens
  counter, mergesort and quicksort;
- the pipes and redirections of the shell (`cush/src/cush.c`, `cush/posix_spawn/spawni.c`), the buffered socket reader
  (`pserv/src/bufio.c`, `pserv/src/buffer.h`), and edit distance (`cush/pexpect-dpty/pxssh.py`).

`dafny verify dfyconfig.toml` checks the whole project.

## How the model is built

Memory of the allocators and of the list is an array of 32-bit words (`Memory.dfy`). A pointer takes two of them, so
list links really lie inside the blocks that the allocator resizes, and a header is a word whose lowest bit says
whether the block is in use. Addresses count words, so 16-byte alignment is divisibility by four. `Layout.dfy` says
when blocks tile a heap and what joining, splitting and adding blocks does to that; `Blocks.dfy` and `Walks.dfy` say
what follows for used and free blocks, for any smallest block size, and serve both allocators. `FreeLists.dfy` and
`Heap.dfy` add the ten lists of `mm.c`. The ghost fields `blocks`, `lists` and `live` name the blocks, the contents of
the lists and the sizes asked for; `Valid` ties each of them to the words. `Ints.dfy` has the narrowing of `size_t` to
`int` and of `int` to the 31 bits of a size; in a heap that is in order sizes are far from either bound, and
`TruncatedSizes.dfy` says what becomes of requests for which they are not. Assertions are off, as the Makefile has
them. `Bytes.dfy` has the bytes of words, lowest first, so that what `memcpy`, `memset` and the driver do to bytes is
said to the byte.

Trees are objects with fields. A ghost tree and a ghost context around it (what is above a node, and on which side)
describe the shape at each point of a loop; each rotation or color change is one small method with a lemma about it.
`SplayBalance.dfy` follows the course of a splay on trees alone and bounds its turns by the change of the potential;
`SplayRuns.dfy` adds this up over runs.

The pool is a state machine with one step for each thing that a thread does to shared state, under any interleaving.
`workers_lists_empty` is unfinished in the source and so may give any answer: a worker may look at any list at any
time. `ThreadPoolRuns.dfy` builds runs in which `future_get` does not wait for the future that it is asked for.

A forked sort is a program whose single accesses to the array, the buffer and its own variables are steps
(`Forks.dfy`). The programs of mergesort and quicksort (`MergesortTasks.dfy`, `QuicksortTasks.dfy`) fork as the source
does, at every level; each is shown to access only its own range, and every interleaving of the steps of all tasks is
shown to end in the same arrays. What the parts do one after the other is the serial sort (`Mergesort.dfy`,
`Quicksort.dfy`), proved of loops over arrays.

The source's integers that never leave their range in the model (indices, keys, sizes of arrays that exist) are
unbounded. Where the width decides what happens it is written out: sizes of requests wrap around in `size_t`, byte
counts are narrowed to `int` for `mem_sbrk` and in `bufio_read`, the size in a tag is a signed field of 31 bits, the
capacity of a buffer is an `int`, and a word holds 32 bits. An `int` that overflows is taken to wrap around; the
results about it say just when it does. A `char` is signed, as on x86-64.

Where the code and its comments differ, the model follows the code. By the comment above `mm_realloc` a free block after
the old one is taken alone whenever it suffices; the code does so only if the block before is used, and takes both
otherwise. The driver's overlap check looks only at whether
the ends of the new range fall into an old one, and the model has it so, but what is proved of payloads is that they
do not overlap. The driver compares a `char` with an index up to 255, so its check of the data fails for a REALLOC of an
index whose low byte is 128 or more although the data is there; `EvalMmValid` says so.

`future_get` is documented to return when the task is done, with its value. The pool's own does not always:
`LookDecides` and `CallGives` give the exact condition, for each return by `ReadFollowsLook`, and `JoinsTooEarly` a
run. So the results about its clients, the rows of `NQueens`, `MergesortTasks` and `QuicksortTasks`, rest on the
documented join and not on this pool: each assumes that a call of `future_get` returns only after the function of its
future has.

## Model

| member | source | states |
|---|---|---|
| List.ListInit | malloclab/list.c:60-68 | the two ends of an empty list are linked to each other, with null outside, and no other word changes |
| List.ListInsert | malloclab/list.c:168-178 | the element is linked in right before the given one, and nothing but the four pointers concerned changes |
| List.ListPushFront | malloclab/list.c:208-212 | the element is linked in between the head and what was first |
| List.ListPushBack | malloclab/list.c:216-220 | the element is linked in between what was last and the tail |
| List.ListRemove | malloclab/list.c:256-263 | the neighbours are linked to each other, nothing else changes, and what followed is returned |
| List.ListSplice | malloclab/list.c:183-204 | the range is linked out of where it was and in before the given element; an empty range, or one that is there already, changes nothing |
| List.ChainDetach | malloclab/list.c:193-197 | linking out a range leaves two well-formed chains, the rest and the range |
| List.ChainAttach | malloclab/list.c:199-203 | linking a chain in between two neighbours leaves one well-formed chain with it there |
| ListSort.MoveBefore | malloclab/list.c:408-409 | splicing one element forward in a chain gives the chain with it moved, and changes only links |
| ListSort.FindEndOfRun | malloclab/list.c:369-384 | the range up to the result is in nondecreasing order, the result is the end or less than what is before it, and there was at most one comparison for each element passed |
| ListSort.InplaceMerge | malloclab/list.c:391-411 | two adjacent sorted runs become one sorted range that is a stable permutation of both, with at most one comparison for each of their elements; the rest of the list stays |
| ListSort.SortPass | malloclab/list.c:427-448 | a pass keeps the list a stable permutation, halves its natural runs (rounding up), counts the runs it makes, and needs at most two comparisons for each element |
| ListSort.Sort | malloclab/list.c:413-452 | ends with a well-formed list that is sorted and a stable permutation of the input, for every strict weak order, with at most 2 n comparisons for each of at most Passes(n) passes |
| ListSort.PassesAreLogarithmic | malloclab/list.c:413-415 | Passes(n) - 1 is less than lg n, so the comparisons are O(n lg n), and O(n) for runs that are few |
| Order.StableSortIsUnique | malloclab/list.c:413-452 | sorted and stable leave nothing open: only one sequence is both |
| Order.StableIsPermutation | malloclab/list.c:413-452 | a stable permutation has each element as often as the input |
| Requests.OverflowsExactly | malloclab/mm.c:313-316 | the test for integer overflow is true exactly for sizes with no room for tags and rounding in a size_t |
| Allocator.BlockWordsSuffice | malloclab/mm.c:313-319 | the block size computed for a request holds its bytes and both tags, and is the smallest aligned one, or the minimum |
| Allocator.FindFitIndex | malloclab/mm.c:238-265 | the loop over the ranges gives the size class, -1 just below the minimum |
| Allocator.Allocator.InsertFreeBlock | malloclab/mm.c:206-222 | a block of fewer than eight words is refused and nothing changes; another becomes the first of the list of its class if it is smaller than half of what the range of that list reaches to, and the last otherwise, with all others in their order, and only links change |
| Allocator.Allocator.RemoveFreeBlock | malloclab/mm.c:227-230 | the block leaves its list, all ten lists stay well formed, and only links change |
| FreeLists.LinksInsert | malloclab/mm.c:206-222 | linking an element into one list keeps all ten well formed and disjoint |
| FreeLists.LinksRemove | malloclab/mm.c:227-230 | linking an element out of one list keeps all ten well formed and disjoint |
| Layout.JoinTiles | malloclab/mm.c:375-395 | one pair of tags over adjacent blocks keeps the heap tiled |
| Layout.SplitTiles | malloclab/mm.c:552-560 | two pairs of tags over one block keep the heap tiled |
| Layout.ExtendTiles | malloclab/mm.c:531-535 | a block over the old epilogue with a new epilogue after it keeps the heap tiled |
| Allocator.Allocator.Coalesce | malloclab/mm.c:361-401 | in all four cases: the heap is in order again, the free block covers the one given and its free neighbours, it is in its list, and no used block changes |
| Allocator.Allocator.CoalesceBoth | malloclab/mm.c:388-395 | case 4: the way back to the start of the joined block goes through a footer that is still there |
| Allocator.Allocator.FindFit | malloclab/mm.c:575-625 | in numbers: null exactly if none of five blocks of the list of the request's class, the first if the request is below half of what its range reaches to and the last otherwise, and none of the first five of each higher list, is large enough; else the first such block in that order |
| Fit.FitIsChosen | malloclab/mm.c:575-625 | what the search gives is that, for all lists |
| Fit.ChosenOnce | malloclab/mm.c:575-625 | and that leaves nothing open: only one result is it |
| Heap.ClassIsIndex | malloclab/mm.c:238-265 | the ten size classes in numbers: each size of at least eight words has just one, and it is the one that the switch and the loop give |
| Fit.FitIsFree | malloclab/mm.c:575-625 | a block that the search finds is free and large enough |
| Fit.NoFitMeansEmpty | malloclab/mm.c:575-625 | if it finds none, every list above the class but list 5 is empty, and for an exact class its own too, despite the limit of five |
| Allocator.Allocator.Place | malloclab/mm.c:547-566 | the block becomes used with the words asked for, a remainder of at least eight words becomes a free block in its list, a smaller one stays part of it, and no other used block changes |
| Allocator.Allocator.MemSbrk | malloclab/memlib.c:83-95 | fails exactly for a negative increment or one beyond the heap, and then changes nothing |
| Allocator.Allocator.ExtendHeap | malloclab/mm.c:524-539 | fails exactly when there is no memory and changes nothing then; otherwise the new words, joined with a free block before them, are a free block at the end of the heap: as many as asked for, or, where mem_sbrk gets less and the tags say so, as many as were got |
| Allocator.Allocator.MmInit | malloclab/mm.c:270-297 | the empty heap is in order, with ten empty lists |
| Allocator.Allocator.MmMalloc | malloclab/mm.c:305-335 | null exactly for size 0, overflow, or no fit and no memory, and the heap is unchanged then; otherwise a new payload of at least the size, in the block that is to be found by the numbers, or, if there is none, at the end of a heap larger by what is needed or 32 words; and no other payload changes |
| Allocator.Allocator.MmFree | malloclab/mm.c:342-353 | the payload is no longer live, the heap is in order, and no other payload changes; null changes nothing |
| Allocator.Allocator.ReallocIntoNext | malloclab/mm.c:455-460 | growing into the next block keeps address and data |
| Allocator.Allocator.ReallocIntoPrevious | malloclab/mm.c:462-468 | growing into the previous block moves the data there although the ranges overlap and the tags have changed |
| Allocator.Allocator.ReallocIntoBoth | malloclab/mm.c:470-477 | growing into both neighbours does too |
| Allocator.Allocator.ReallocAtEnd | malloclab/mm.c:479-487 | growing the heap keeps address and data; if there is no memory, also for four words, null is returned and everything is unchanged |
| Allocator.Allocator.MallocCopyFree | malloclab/mm.c:489-510 | the fallback gives a payload elsewhere with the old data, or fails and leaves everything unchanged |
| Allocator.Allocator.MmRealloc | malloclab/mm.c:422-513 | null exactly for size 0, overflow or no memory, and unchanged then unless the size is 0; otherwise the old payload's words are at the start of the new one, and no other payload changes. By the tags around the block: the payload stays and the heap keeps its end exactly if the block has the words, or has them with a free block after it and a used one before it; it moves to the free block before it exactly if it has them only with that, and with the one after it if that is free too; and only else, for the last block, the heap grows by what is missing, or else the payload goes where mm_malloc puts it; with the size of the block that it is in then |
| Walks.WalkVisits | malloclab/mm.c:166-172 | following sizes from a block visits exactly the blocks from there on, once each, and ends at the epilogue |
| Walks.TagsTileHeap | malloclab/mm.c:174-201 | in a tiled heap header equals footer, sizes are multiples of 4 of at least the minimum, of two neighbours one is used, and the sizes add up to the heap but for 4 words |
| AllocatorTheorems.TagsTileHeap | malloclab/mm.c:270-566 | all that holds after any run of the operations, with a minimum of eight words |
| AllocatorTheorems.ListsHoldFreeBlocks | malloclab/mm.c:203-265 | after any run the ten lists together hold each free block exactly once and no used one, each in the list of its size class |
| AllocatorTheorems.LowBlocksFirst | malloclab/mm.c:214-217 | after any run, in each of the ten lists the blocks below the middle of its range come before all others, so a search from the back looks at one of at least the middle first, if there is one |
| AllocatorTheorems.PayloadsInUse | malloclab/mdriver.c:565-592 | after any run payloads in use are 16-byte aligned, inside the heap, as large as asked for, and do not overlap |
| AllocatorTheorems.GrowthServed | malloclab/mm.c:479-487 | a growth of the last block meets what MmRealloc requires exactly if it is not by four words or cannot be had, and does not get less memory than meant |
| AllocatorTheorems.ReallocServed | malloclab/mm.c:450-490 | any request meets it, by the tags around the block, exactly if the free blocks beside it suffice as above, or what has to be got from mem_sbrk is got as meant and is not four words for the last block |
| AllocatorTheorems.ReallocRefused | malloclab/mm.c:450-500 | and is answered with null exactly if they do not, and the last block cannot have more words, or, for another, nothing is to be found and there is no memory |
| AllocatorTheorems.GrowByFour | malloclab/mm.c:479-487 | otherwise, by four words that can be had: what the code does up to its list_remove, whose first pointer is then outside of memory |
| AllocatorTheorems.GrowthByFourWords | malloclab/mm.c:479-487 | it happens: 104 bytes in a new heap grown to 128 end with that pointer |
| TruncatedSizes.TruncationGetsLess | malloclab/memlib.c:83-95 | with the heap at a given end, mem_sbrk gets memory, but less than meant, exactly if the count does not fit an int, does not look negative as one, and what is left of it fits the heap |
| TruncatedSizes.TagsByField | malloclab/mm.c:51-56 | what the signed 31-bit size of a tag keeps of such a count, and so where the footer of the new block goes: below all memory with bit 30 of the count set; with it clear, the size is just the words that were got, and the footer is right before where the new epilogue goes |
| TruncatedSizes.MallocFooterBelow | malloclab/mm.c:181-186 | mm_malloc with bit 30 set: finds no block, gets memory, writes the header over the epilogue, and the footer that the header says is then below all memory |
| TruncatedSizes.MallocGetsSmaller | malloclab/mm.c:305-566 | with bit 30 clear and at least eight words got: the payload returned is smaller than asked for, the remainder that place computes wraps around, no other payload changes, and the heap is in order if the block before was free, while otherwise the epilogue is overwritten |
| TruncatedSizes.MallocGetsFour | malloclab/mm.c:361-566 | with bit 30 clear and four words got: what the code does, with a free block before them and without, up to its list_remove, whose first pointer is then outside of memory |
| TruncatedSizes.MallocGetsNothing | malloclab/mm.c:361-539 | with bit 30 clear and none got: the tags go over the epilogue and the footer before it, and coalesce takes the epilogue for the free block before itself, with a list element beyond the heap |
| TruncatedSizes.ReallocGetsSmaller | malloclab/mm.c:479-487 | a growth at the end of the heap with bit 30 clear and at least eight words got: address, data and heap are kept, but the block is smaller than asked for |
| TruncatedSizes.FourGigabytes | malloclab/mm.c:305-335 | the first happens: 2^32 - 8 bytes in a new heap |
| TruncatedSizes.EightGigabytes | malloclab/mm.c:305-335 | the second happens: for 2^33 + 392 bytes in a new heap a block of 100 words is returned |
| Driver.AddRange | malloclab/mdriver.c:556-605 | no check on a new payload fails: it is aligned, in the heap, and overlaps no recorded one; then all live payloads are recorded |
| Driver.RemoveRange | malloclab/mdriver.c:610-623 | the range that starts there is gone and every other one stays |
| Driver.Check | malloclab/mdriver.c:856-862 | the comparison of bytes that are all there succeeds exactly if there are none or the low byte of the index is less than 128 |
| Driver.EvalMmValid | malloclab/mdriver.c:784-886 | over any well-formed trace, with every live payload recorded throughout, no check of the driver fails but that for the data of a REALLOC of an index with a low byte of 128 or more, which never passes. The trace passes, and just the blocks asked for are there, each with all of its bytes; or it stops at the index returned, where such a request is, one for no bytes, one that the allocator as it is then has no memory for, or one that grows the last block, which is that of the request, by four words; then just the blocks asked for up to there are there with all of their bytes, but for the block of the request if it was freed or moved |
| ImplicitAllocator.BlockWordsSuffice | malloclab/mm-gback-implicit.c:179-185 | the block size computed holds the bytes and both tags, and is the smallest aligned one, or the minimum |
| ImplicitAllocator.Allocator.Coalesce | malloclab/mm-gback-implicit.c:221-250 | in all four cases no two adjacent blocks are free afterwards, the free block covers the one given and its free neighbours, and no used block changes |
| ImplicitAllocator.Allocator.Place | malloclab/mm-gback-implicit.c:322-334 | the block becomes used, a remainder of at least four words stays free, and no other used block changes |
| ImplicitAllocator.Allocator.FindFit | malloclab/mm-gback-implicit.c:339-348 | the search ends, with the lowest free block that is large enough, and with null exactly if there is none |
| ImplicitAllocator.Allocator.ExtendHeap | malloclab/mm-gback-implicit.c:301-316 | fails exactly when there is no memory and changes nothing then; otherwise there is a free block of at least the words asked for |
| ImplicitAllocator.Allocator.MmInit | malloclab/mm-gback-implicit.c:141-166 | the heap is in order, with one chunk of free memory |
| ImplicitAllocator.Allocator.MmMalloc | malloclab/mm-gback-implicit.c:171-200 | null exactly for size 0, overflow, or no fit and no memory, and the heap is unchanged then; otherwise the payload is in the first fit, or in a larger heap if there was none, and no used block changes |
| ImplicitAllocator.Allocator.MmFree | malloclab/mm-gback-implicit.c:205-216 | the payload is no longer live, the heap is in order, and no other payload changes |
| ImplicitAllocator.Allocator.MmRealloc | malloclab/mm-gback-implicit.c:255-285 | with no size excluded but overflow: the first bytes of the old payload, as many as both have, are in the new one, to the byte, and no other payload changes; failing leaves everything unchanged |
| ImplicitAllocator.Allocator.MemCpy | malloclab/mm-gback-implicit.c:275-279 | the bytes are copied, and of the last word only those |
| ImplicitAllocator.TagsTileHeap | malloclab/mm-gback-implicit.c:141-334 | what the tags say after any run, with a minimum of four words |
| ImplicitAllocator.PayloadsInUse | malloclab/mm-gback-implicit.c:171-285 | after any run payloads in use are aligned, inside the heap, as large as asked for, and do not overlap |
| TreeShape.RotateLeft | malloclab/tree.h:337-355 | which fields a left rotation sets, and that it touches no others |
| TreeShape.RotateRight | malloclab/tree.h:357-375 | which fields a right rotation sets, and that it touches no others |
| TreeShape.RotateLeftAt | malloclab/tree.h:337-355 | at any place of a tree, a left rotation keeps parent links, nodes and their order |
| TreeShape.RotateRightAt | malloclab/tree.h:357-375 | at any place of a tree, a right rotation keeps parent links, nodes and their order |
| RedBlackTree.InsertColor | malloclab/tree.h:402-444 | from a tree with one red node that may have a red parent, the loop ends with a red-black tree of the same nodes in the same order |
| RedBlackTree.Insert | malloclab/tree.h:590-618 | keeps order, links, colors and black heights; adds exactly the new node where it belongs, or returns an equal one and changes nothing |
| RedBlackTree.RemoveColor | malloclab/tree.h:446-520 | from a tree with one subtree a black node short, the loop ends with a red-black tree of the same nodes in the same order |
| RedBlackTree.Remove | malloclab/tree.h:522-588 | for a leaf, one child or two, keeps order, links, colors and black heights, and takes out exactly the node |
| RedBlackWalk.Find | malloclab/tree.h:621-637 | a node with an equal key, and null exactly if there is none |
| RedBlackWalk.NFind | malloclab/tree.h:639-657 | the least node not below the key, and null exactly if all are below |
| RedBlackWalk.Next | malloclab/tree.h:660-680 | the node that follows in order, and null after the last |
| RedBlackWalk.Prev | malloclab/tree.h:682-701 | the node that comes before in order, and null before the first |
| RedBlackWalk.MinMax | malloclab/tree.h:703-716 | the first node in order, or the last |
| RedBlackWalk.ForEach | malloclab/tree.h:730-733 | visits exactly the nodes in order |
| RedBlackWalk.LevelsLogarithmic | malloclab/tree.h:50-56 | a red-black tree of n nodes has at most 2 lg(n + 1) levels |
| SplayTree.Splay | malloclab/tree.h:204-237 | ends with the same nodes in the same order, and a root that leaves only lesser keys on its left and greater ones on its right of the key sought; with the potential of a tree the sum over its nodes of the logarithm of the size of their subtree, the turns of its loop and twice the potential afterwards are at most twice the potential before and 8 lg n + 2 |
| SplayTree.KeyAtRoot | malloclab/tree.h:204-237 | so the root has the key, or is its predecessor or successor and the key is nowhere |
| SplayTree.Find | malloclab/tree.h:123-132 | a node with an equal key, then the root, and null exactly if there is none; the set stays; with twice the change of the potential it takes at most 10 lg (n + 1) turns |
| SplayTree.Insert | malloclab/tree.h:159-181 | adds exactly the new node, in order, as the root; or returns an equal one and keeps the set; in the same way at most 12 lg (n + 1) turns |
| SplayTree.Remove | malloclab/tree.h:183-202 | takes out exactly the node with an equal key, and says whether there was one; in the same way at most 20 lg (n + 1) turns, for both splays |
| SplayBalance.Amortized | malloclab/tree.h:36-46 | the amortized bound of one splay, for all trees and comparisons |
| SplayBalance.PotentialBound | malloclab/tree.h:44-46 | a tree of n nodes has at most the potential n lg n |
| SplayRuns.Run | malloclab/tree.h:44-46 | any run of finds, inserts and removes on any tree finds and leaves just the keys that it should, and m calls, k of them inserts, on a tree of n nodes take at most 20 m lg (n + k + 1) + 2 n lg n turns |
| SplayRuns.BalanceTheorem | malloclab/tree.h:44-46 | so on an empty tree m calls, n of them inserts, take at most 20 m lg (n + 1) turns |
| ThreadPool.StepKeeps | threadlab/tests/threadpool.c:74-143 | every step of every thread keeps the invariant that ties queues, locks, states and where each thread is |
| ThreadPool.RunKeeps | threadlab/tests/threadpool.c:74-339 | so every state of every run has it, for any number of workers and submitters |
| ThreadPool.WaitingIsQueued | threadlab/tests/threadpool.c:247-315 | a future is WAITING exactly while on its owner's queue, or in the hands of the holder of that lock; it is there once and on no other |
| ThreadPool.RunForward | threadlab/tests/threadpool.c:96-129 | states only go from WAITING to RUNNING to FINISHED, and a result never changes |
| ThreadPool.StartsOnce | threadlab/tests/threadpool.c:96-129 | the function of each future is called at most once in a run |
| ThreadPool.ResultReturned | threadlab/tests/threadpool.c:110-129 | a stored result was returned by the future's own function |
| ThreadPool.ReturnsOnce | threadlab/tests/threadpool.c:110-129 | that function returns at most once |
| ThreadPool.GetsOwnResult | threadlab/tests/threadpool.c:294-339 | future_get on a global, WAITING or FINISHED future returns what that future's function returned |
| ThreadPool.HelpGetsAnothers | threadlab/tests/threadpool.c:317-328 | on a RUNNING one it returns another future's result when the list has one to run |
| ThreadPool.LookDecides | threadlab/tests/threadpool.c:296-335 | what future_get sees under the lock decides how its call ends: it settles for any future of the global list and any not RUNNING; for a RUNNING one of a local list it runs another of that list, or, if there is none, reads at once |
| ThreadPool.CallGives | threadlab/tests/threadpool.c:294-339 | over runs, whatever tasks the thread runs in between: a look that settles is followed, at that call's return, by the result that the function of the future asked for returned; one at a RUNNING future whose list has another by that of another; any other by what is stored as its result |
| ThreadPool.ReadFollowsLook | threadlab/tests/threadpool.c:294-339 | and each return of future_get is that of a call that looked, so this is all that it gives |
| ThreadPool.ReadsAsked | threadlab/tests/threadpool.c:294-339 | the result read is that of the future asked for, and that future is FINISHED, exactly if it was settled, or its function happens to be through by then; and then it is what that function returned |
| ThreadPoolRuns.JoinsTooEarly | threadlab/tests/threadpool.c:317-337 | a run of two workers in which future_get returns twice while the future is still RUNNING: once with another's result, and once with one that was never set |
| NQueens.IsQueenInSet | threadlab/tests/nqueens.c:30-37 | the test is true exactly for the squares with a queen, and false off the board |
| NQueens.SetQueen | threadlab/tests/nqueens.c:39-42 | adds the square to the set of queens and changes no other bit |
| NQueens.UnsetQueen | threadlab/tests/nqueens.c:43-46 | takes the square out of it and changes no other bit |
| NQueens.ForwardIsEnough | threadlab/tests/nqueens.c:52-64 | no two queens attack each other exactly if none attacks one in the directions that are tried |
| NQueens.Solved | threadlab/tests/nqueens.c:48-67 | the number of queens if no two attack each other, -1 otherwise |
| NQueens.SolutionsExact | threadlab/tests/nqueens.c:70-116 | the counted set has exactly the ways to complete the board without conflict |
| NQueens.NoSolutions | threadlab/tests/nqueens.c:74-76 | stopping at a conflict loses none |
| NQueens.Backtrack | threadlab/tests/nqueens.c:70-116 | returns exactly the number of completions, for every N and depth of parallel work, and leaves board and row as they were |
| NQueens.RunTasks | threadlab/tests/nqueens.c:85-103 | each forked task counts its column, whatever the order they run in |
| NQueens.Count | threadlab/tests/nqueens.c:118-146 | from the empty board: exactly the number of placements of N queens with no two in the same row, column or diagonal |
| IntSorting.SortedIsUnique | threadlab/tests/mergesort.c:38-47 | only one sequence is sorted and a permutation of the input |
| IntSorting.SortRangesCommute | threadlab/tests/mergesort.c:155-167 | sorting two adjacent ranges gives the same in either order |
| Mergesort.InsertionSort | threadlab/tests/mergesort.c:65-77 | sorts the range and changes nothing outside |
| Mergesort.MergeParts | threadlab/tests/mergesort.c:79-97 | two sorted halves become their merge, and only the part of the buffer for the left half changes |
| Mergesort.MergesortInternal | threadlab/tests/mergesort.c:102-113 | sorts the range, and changes only that and its part of the buffer |
| Quicksort.Partition | threadlab/tests/quicksort.c:67-87 | a permutation of the range with nothing greater than the pivot before it and nothing less after it; the rest stays |
| Quicksort.QsortSerial | threadlab/tests/quicksort.c:92-101 | sorts the range and changes nothing outside |
| Forks.StepKeepsEnd | threadlab/tests/mergesort.c:155-171 | when no forked tasks write what the other reads or writes, a step of any of them leaves the end the same, however deep the forks |
| Forks.AnyScheduleEndsTheSame | threadlab/tests/quicksort.c:134-152 | so every schedule is finite, can go on until all is done, and ends as one task after the other does |
| MergesortTasks.ParallelTaskStays | threadlab/tests/mergesort.c:139-173 | every access of a task and of all it forks is within its range of the array and of the buffer, so no two tasks race |
| MergesortTasks.ParallelTaskDoes | threadlab/tests/mergesort.c:65-173 | its accesses, one after the other, sort the range and change only that and its part of the buffer |
| MergesortTasks.EveryScheduleSorts | threadlab/tests/mergesort.c:139-173 | for every schedule of all the forked halves, for every minimal task size and insertion threshold: it ends, with the range sorted and nothing outside changed, the buffer included |
| MergesortTasks.MergesortParallel | threadlab/tests/mergesort.c:139-173 | done on the arrays with any choice of the next step, it sorts the range, and changes only that and its part of the buffer |
| MergesortTasks.Sort | threadlab/tests/mergesort.c:175-191 | the whole array ends as the sorted permutation of itself, for every schedule |
| QuicksortTasks.SortTaskStays | threadlab/tests/quicksort.c:120-156 | every access of a task and of all it forks is within its range, wherever the partitions split it |
| QuicksortTasks.SortTaskDoes | threadlab/tests/quicksort.c:67-156 | its accesses, one after the other, sort the range and change nothing else |
| QuicksortTasks.EveryScheduleSorts | threadlab/tests/quicksort.c:120-156 | for every schedule of all the forked sides, for every depth: it ends, with the range sorted and nothing else changed |
| QuicksortTasks.QsortParallel | threadlab/tests/quicksort.c:120-156 | done on the array with any choice of the next step, it sorts the range; and the size that it returns |
| QuicksortTasks.Sort | threadlab/tests/quicksort.c:161-175 | the whole array ends as the sorted permutation of itself, for every schedule |
| Spawn.Process.PerformAction | cush/posix_spawn/spawni.c:289-368 | each case of the interpreter, with its system calls, does to the descriptor table, the working directory and what files hold just what the action promises, and fails just when it should |
| Spawn.Process.PerformActions | cush/posix_spawn/spawni.c:278-370 | the loop does all actions in order, and stops at the first that fails |
| Spawn.OpenedElsewhere | cush/posix_spawn/spawni.c:325-336 | opening at another descriptor, moving and closing leaves the file just where it should be |
| Spawn.Process.Pipe2 | cush/src/cush.c:569-574 | both ends of a new pipe on two new descriptors, or, exactly if fewer than two are free, nothing |
| Pipelines.OpenPipelines | cush/src/cush.c:566-576 | the array has both ends of each pipe there are descriptors for, distinct, new and close-on-exec; the rest of it is as it was, and the other descriptors stay |
| Pipelines.ClosePipelines | cush/src/cush.c:578-588 | every descriptor in the array is closed and no other |
| Pipelines.ClosedPipes | cush/src/cush.c:578-588 | when the array has the pipes, the table is then what it was before them |
| Pipelines.ConnectPipeline | cush/src/cush.c:593-610 | the actions added connect a command to the pipe before it and the pipe after it, where there are any |
| Pipelines.ActionsWire | cush/src/cush.c:649-674 | done in order, the actions of a command give it stdin from the previous pipe or the input file, stdout to the next pipe or the output file, stderr where it should go, and nothing of the pipes besides; or fail exactly if a file cannot be opened |
| Pipelines.HandleJob | cush/src/cush.c:615-705 | for a pipeline of any length that there are descriptors for, each command starts with just those descriptors, and the shell ends with the ones it had; the output file is empty then after > and as it was after >>, if the last command comes to opening it, and no other file changes |
| Pipelines.JobWrites | cush/src/cush.c:661-670 | once the last command has written, its output file holds just that after >, and after >> what it held before the job followed by that |
| Pipelines.LosesInput | cush/src/cush.c:566-588 | whenever there are too few, the shell closes what the array happens to hold: its own input, if that is zeros |
| Pipelines.EndsHeldOnce | cush/src/cush.c:615-705 | each end of each pipe is held by one command only, under its standard descriptors, and not by the shell |
| Buffers.Buffer.EnsureCapacity | pserv/src/buffer.h:73-84 | if the growth fits: there is room for the bytes, the contents stay, and the capacity, as an int, grows just when it must |
| Buffers.RoomExactly | pserv/src/buffer.h:73-84 | for all ints there is room for the bytes afterwards exactly if the growth fits: they are within the capacity already, or its double and they fit an int |
| Buffers.Buffer.Append | pserv/src/buffer.h:87-91 | the bytes come after the contents |
| Buffers.Buffer.Reset | pserv/src/buffer.h:47-54 | nothing is left, and no more storage than the size given |
| Bufio.Socket.Recv | pserv/src/bufio.c:99-105 | recv delivers at most as many bytes as asked for, of what comes next; 0 at the end; or an error |
| Bufio.Bufio.ReadMore | pserv/src/bufio.c:96-106 | what was received is in the buffer after what was there; no byte is lost or doubled |
| Bufio.Bufio.Truncate | pserv/src/bufio.c:79-94 | what is unread stays, also when the buffer is replaced |
| Bufio.Bufio.ReadByte | pserv/src/bufio.c:137-148 | the next byte of the stream, 0 exactly at its end, or an error and nothing read |
| Bufio.Bufio.ReadLine | pserv/src/bufio.c:159-172 | if the buffer can take it: the next line of the stream with its newline, or the rest of it; after an error the bytes read so far have no newline, and none is lost |
| Bufio.Bufio.LineOverflows | pserv/src/bufio.c:159-172 | otherwise, when the stream comes a byte at a time, the loop gets, before the newline and with no byte lost, to where the capacity would exceed an int |
| Bufio.Bufio.Read | pserv/src/bufio.c:180-194 | if the buffer can take them: for every count, the least of what is there and of the count as an int; that is all that was asked for exactly if an int holds the count or all that is there is within the count as an int, and negative exactly if the count as an int is; the bytes are the next of the stream; after an error nothing is read |
| Bufio.Bufio.ReadOverflows | pserv/src/bufio.c:180-190 | otherwise, when the stream comes a byte at a time, the loop gets to where the capacity would exceed an int |
| Bufio.Bufio.NewReaderFits | pserv/src/bufio.c:38-51 | of a new reader the buffer can take a read exactly if what must be buffered before the last byte is less than 1342173184 bytes |
| Bufio.PiecesAreConsecutive | pserv/src/bufio.c:150-194 | the pieces that calls return are consecutive: with the rest they are the stream |
| Bufio.Run | pserv/src/bufio.c:79-194 | any calls in any order on a stream of less than a gigabyte return what the same calls return of the stream itself, however it arrives and whenever the buffer is truncated; the capacity stays within a bound |
| EditDistance.DistSymmetric | cush/pexpect-dpty/pxssh.py:107-110 | the distance is symmetric, so the arguments may be exchanged |
| EditDistance.DistIsLeast | cush/pexpect-dpty/pxssh.py:103-106 | no fewer edits than the recursive distance turn one string into the other |
| EditDistance.DistIsEnough | cush/pexpect-dpty/pxssh.py:103-106 | and as many do |
| EditDistance.NextRow | cush/pexpect-dpty/pxssh.py:112-120 | from one row of the table of distances the inner loop makes the next |
| EditDistance.LevenshteinDistance | cush/pexpect-dpty/pxssh.py:103-121 | two rows give the recursive distance: the least number of insertions, deletions and changes that turn one string into the other |

## Left out

- Allocator.Allocator.MmRealloc: requires `Manageable`, what the code gets right, and nothing is stated of a whole call beyond it. `ReallocServed` and `TruncationGetsLess` give the exact condition; outside of it `GrowByFour` goes on to the access that is outside of memory, where the model ends, and `ReallocGetsSmaller` to the block that is too small.
- Allocator.Allocator.MmMalloc: requires that `mem_sbrk` does not get less than meant, exactly as `TruncationGetsLess` has it, here and in the other requests of both allocators. For `mm_malloc` of `mm.c` the rest is in `TruncatedSizes`, up to the payload returned or to an access outside of the heap, where the model ends.
- Allocator.Allocator.ExtendHeap: requires at least eight words, as asked for or as got, unless they cannot be had, and that the tags say how many; `GrowByFour`, `MallocGetsFour`, `MallocGetsNothing` and `MallocFooterBelow` do what it does otherwise.
- Allocator.Allocator.MemSbrk: byte counts that are no multiple of the word size, which no caller has.
- Driver.EvalMmValid: stops the trace at a growth by four words, where the driver would go on; and has traces with multiplier 1.
- ImplicitAllocator.Allocator.MmInit: the heap starts at the same address as in the other model, although there are no free lists before it.
- RedBlackTree.Insert: `RB_AUGMENT` does nothing, as in the file; a node has a key, and any comparison that is a total preorder may order them.
- NQueens.SetQueen: the bits of the board are an array of booleans, so packing them in words is not modelled; that N * N bits fit is required.
- MergesortTasks.EveryScheduleSorts: the steps are accesses to the array and the buffer; comparisons of indices are no steps, and a task's own variables are its own. Joining is by a `future_get` that waits.
- QuicksortTasks.EveryScheduleSorts: the same.
- NQueens.RunTasks: tasks have boards of their own, so each is one step; joining is by a `future_get` that waits.
- Spawn.Process.PerformActions: no action has a negative descriptor, which the functions that add actions refuse; a file is known by its path from a directory, so two paths to one file are two files, and what a file holds that is not there is nothing.
- Pipelines.HandleJob: the shell's first three descriptors are open; process groups, the terminal, jobs and signals are not modelled.
- Pipelines.JobWrites: the writes of the last command to its output, with no other writer of that file meanwhile.
- SplayTree.Splay: turns of the loop are counted, each of which makes at most two comparisons.
- Bufio.Bufio.Read: an offset does not wrap around upwards, because memory holds fewer bytes than a size_t counts.
- Bufio.Run: a bound that suffices for any calls; the exact condition is that of each `Read`.
- Memory running out in the buffers and in `list.c` clients: the source exits.
- Liveness, shutdown and freeing in the pool, and `workers_lists_empty`, which is unfinished.
- `list_reverse`, `list_unique`, `list_insert_ordered`, `list_max`, `list_min` and `SPLAY_MINMAX`: they would only add easier members.
- `mergesort_serial`: passes the length as an inclusive bound to insertion sort for small arrays.
- Timing, measurement, trace files, printing and the rest of the driver.
- The shell's job table, signals, history and prompt; the web server beyond its buffered reader; pexpect beyond edit distance.
