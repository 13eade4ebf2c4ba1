/** What the contracts of the allocator add up to, and what a growth by four words does. */
module AllocatorTheorems {
  import opened Memory
  import opened List
  import opened Layout
  import opened Ints
  import opened Requests
  import opened FreeLists
  import opened Blocks
  import opened Walks
  import opened Heap
  import opened Fit
  import opened Allocator

  // The tags tile the heap: a walk from the first block by the sizes in the headers visits exactly the blocks and
  // ends at the epilogue; each block is in order; and the sizes add up to the heap but for four words.
  lemma TagsTileHeap(a: Allocator)
    requires a.Valid()
    ensures
      var m, epi := a.mem[..], a.brk - 1;
      && (forall c :: c in Walk(m, FIRST, epi) <==> c in a.blocks)
      && (forall c :: c in a.blocks ==> InOrder(m, epi, MIN_BLOCK_SIZE_WORDS, c))
      && TotalSize(m, Walk(m, FIRST, epi)) == (a.brk - HEAP_LO) - 4
  {
    Walks.TagsTileHeap(a.mem[..], a.brk - 1, a.blocks, MIN_BLOCK_SIZE_WORDS);
  }

  // e is the element of a free block of the size for list i.
  ghost predicate FreeElement(m: seq<Word>, s: set<nat>, i: nat, e: nat) {
    2 < e && e - 2 in s && e < |m| && !Used(m, e - 2) && FitIndex(Size(m, e - 2)) == i
  }

  // The free lists together hold each free block exactly once and no used one, each in the list for its size.
  lemma ListsHoldFreeBlocks(a: Allocator)
    requires a.Valid()
    ensures |a.lists| == FREE_LISTS_SIZE
    ensures forall i, k :: 0 <= i < |a.lists| && 0 <= k < |a.lists[i]| ==>
      FreeElement(a.mem[..], a.blocks, i, a.lists[i][k])
    ensures forall b :: b in a.blocks && b < a.mem.Length && !Used(a.mem[..], b) ==> Listed(a.lists, b + 2)
    ensures forall i, k, j, l ::
      (0 <= i < |a.lists| && 0 <= k < |a.lists[i]| && 0 <= j < |a.lists| && 0 <= l < |a.lists[j]|
       && !(i == j && k == l))
      ==> a.lists[i][k] != a.lists[j][l]
  {
    var m, s, lists := a.mem[..], a.blocks, a.lists;
    assert |lists| == FREE_LISTS_SIZE && Links(m, lists);
    hide HeapState, FreeElement, UsedBlocks, LiveMatches, Listed, Links;
    forall i, k | 0 <= i < |lists| && 0 <= k < |lists[i]| ensures FreeElement(m, s, i, lists[i][k]) {
      ListedIsFree(m, a.brk - 1, s, lists, i, k);
    }
    forall b | b in s && b < |m| && !Used(m, b) ensures Listed(lists, b + 2) {
      FreeIsListed(m, a.brk - 1, s, lists, b);
    }
    forall i, k, j, l | 0 <= i < |lists| && 0 <= k < |lists[i]| && 0 <= j < |lists| && 0 <= l < |lists[j]|
      && !(i == j && k == l)
      ensures lists[i][k] != lists[j][l]
    {
      ListedApart(m, lists, i, k, j, l);
    }
  }

  lemma ListedIsFree(m: seq<Word>, epi: nat, s: set<nat>, lists: seq<seq<nat>>, i: nat, k: nat)
    requires HeapState(m, epi, s, lists, {}) && i < |lists| && k < |lists[i]|
    ensures FreeElement(m, s, i, lists[i][k])
  {
    ElementSize(m, epi, s, lists, {}, i, k);
    BlockExtent(m, epi, s, MIN_BLOCK_SIZE_WORDS, lists[i][k] - 2);
  }

  lemma FreeIsListed(m: seq<Word>, epi: nat, s: set<nat>, lists: seq<seq<nat>>, b: nat)
    requires HeapState(m, epi, s, lists, {}) && b in s && b < |m| && !Used(m, b)
    ensures Listed(lists, b + 2)
  {
    assert InItsList(m, lists, b);
  }

  // In each list, all blocks below the middle of its range come before all others. So when the search is for at least
  // the middle, and from the back, it looks at a block of at least the middle first, if there is one.
  lemma LowBlocksFirst(a: Allocator)
    requires a.Valid()
    ensures |a.lists| == |MIDDLES| == 10
    ensures forall i, j, k :: 0 <= i < 10 && 0 <= j < k < |a.lists[i]| ==>
      !(SizeAt(a.mem[..], a.lists[i][j]) >= MIDDLES[i] > SizeAt(a.mem[..], a.lists[i][k]))
    ensures forall i, j :: 0 <= i < 10 && 0 <= j < |a.lists[i]| && SizeAt(a.mem[..], a.lists[i][j]) >= MIDDLES[i] ==>
      SizeAt(a.mem[..], a.lists[i][|a.lists[i]| - 1]) >= MIDDLES[i]
  {
    var m, lists := a.mem[..], a.lists;
    a.ValidState();
    hide Allocator.Valid;
    forall i, j, k | 0 <= i < 10 && 0 <= j < k < |lists[i]|
      ensures !(SizeAt(m, lists[i][j]) >= MIDDLES[i] > SizeAt(m, lists[i][k]))
    {
      LowBefore(m, a.brk - 1, a.blocks, lists, i, j, k);
    }
  }

  lemma LowBefore(m: seq<Word>, epi: nat, s: set<nat>, lists: seq<seq<nat>>, i: nat, j: nat, k: nat)
    requires HeapState(m, epi, s, lists, {}) && i < 10 && i < |lists| && j < k < |lists[i]|
    ensures !(SizeAt(m, lists[i][j]) >= MIDDLES[i] > SizeAt(m, lists[i][k]))
  {
    assert LowFirst(m, lists, i, j, k);
    ElementSize(m, epi, s, lists, {}, i, j);
    ElementSize(m, epi, s, lists, {}, i, k);
    assert MIDDLES[i] == RANGES[i] / 2;
  }

  // Payloads in use are aligned to 16 bytes, in the heap, as large as asked for, and do not overlap.
  lemma PayloadsInUse(a: Allocator)
    requires a.Valid()
    ensures forall p :: p in a.live ==>
      && p % 4 == 0 && HEAP_LO <= p && a.live[p] <= WSIZE * |PayloadOf(a.mem[..], p)|
      && p + |PayloadOf(a.mem[..], p)| < a.brk
    ensures forall p, q :: p in a.live && q in a.live && p < q ==> p + |PayloadOf(a.mem[..], p)| < q
  {
    LivePayloads(a.mem[..], a.brk - 1, a.blocks, MIN_BLOCK_SIZE_WORDS, a.live);
  }

  // A growth at the end of the heap is served as it should be exactly if it is not by four words or cannot be had,
  // and does not get less memory than it asks for: Manageable is what MmRealloc needs.
  lemma GrowthServed(a: Allocator, ptr: nat, size: nat)
    requires a.Valid() && ptr in a.live && ptr <= a.mem.Length
    requires 0 < size < SIZE_VALUES && !Overflows(size) && a.Growth(ptr - 1, BlockWords(size)) == AtEnd
    ensures ptr > 0 && BlockWords(size) > a.BlkSize(ptr - 1)
    ensures
      var growth := BlockWords(size) - a.BlkSize(ptr - 1);
      a.Manageable(ptr, size) <==> (growth != 4 || a.CannotExtend(4)) && !GetsLess(a.brk, growth)
  {
    hide BlockWords, Overflows, GetsLess, HeapState, LiveMatches, UsedBlocks, GrowthIn;
    a.LiveBlock(ptr);
    MoreWords(a.mem[..], ptr - 1, BlockWords(size));
  }

  lemma MoreWords(m: seq<Word>, b: nat, words: nat)
    requires b < |m| && GrowthIn(m, b, words) == AtEnd
    ensures words > Size(m, b)
  {
  }

  // By the tags around the block: mm_realloc does what it should exactly if the free blocks beside it suffice, or else
  // mem_sbrk does not get less than meant and, for the last block, does not get just four words.
  lemma ReallocServed(a: Allocator, ptr: nat, size: nat)
    requires a.Valid() && ptr in a.live && ptr <= a.mem.Length && 0 < size < SIZE_VALUES && !Overflows(size)
    ensures 1 < ptr && a.NextBlk(ptr - 1) < a.brk <= a.mem.Length
    ensures
      var m, b, words := a.mem[..], ptr - 1, BlockWords(size);
      a.Manageable(ptr, size) <==>
        || StaysPut(m, b, words) || MovesDown(m, b, words)
        || (if a.NextBlk(b) == a.brk - 1 then
              (words != Size(m, b) + 4 || a.CannotExtend(4)) && !GetsLess(a.brk, words - Size(m, b))
            else !GetsLess(a.brk, Max(words, CHUNKSIZE)))
  {
    hide BlockWords, Overflows, GetsLess, HeapState, LiveMatches, UsedBlocks, GrowthIn, StaysPut, MovesDown;
    a.LiveBlock(ptr);
    a.ValidState();
    a.InOrderNow();
    a.InMemory();
    GrowthOnTags(a.mem[..], a.brk - 1, a.blocks, a.lists, ptr - 1, BlockWords(size));
    if a.Growth(ptr - 1, BlockWords(size)) == AtEnd {
      GrowthServed(a, ptr, size);
    } else {
      ElseServed(a, ptr, size);
    }
  }

  lemma ElseServed(a: Allocator, ptr: nat, size: nat)
    requires 0 < ptr <= a.mem.Length && 0 < size && !Overflows(size) && a.Growth(ptr - 1, BlockWords(size)) != AtEnd
    ensures a.Manageable(ptr, size) <==>
      a.Growth(ptr - 1, BlockWords(size)) != Elsewhere || !GetsLess(a.brk, Max(BlockWords(size), CHUNKSIZE))
  {
  }

  // By the same tags: it gives null, for a request that does not overflow, exactly if they do not suffice and the last
  // block cannot have more words, or, for another, the search finds nothing and there is no memory.
  lemma ReallocRefused(a: Allocator, ptr: nat, size: nat, i: nat)
    requires a.Valid() && ptr in a.live && ptr <= a.mem.Length && 0 < size < SIZE_VALUES && !Overflows(size)
    requires OfClass(i, BlockWords(size))
    ensures 1 < ptr && a.NextBlk(ptr - 1) < a.brk <= a.mem.Length && |a.lists| == 10 && i < 10
    ensures
      var m, b, words := a.mem[..], ptr - 1, BlockWords(size);
      a.ReallocFails(ptr, size) <==>
        && !StaysPut(m, b, words) && !MovesDown(m, b, words)
        && if a.NextBlk(b) == a.brk - 1 then a.CannotExtend(words - Size(m, b))
           else Chosen(m, a.lists, i, words, 0) && a.CannotExtend(Max(words, CHUNKSIZE))
  {
    hide BlockWords, Overflows, GetsLess, HeapState, LiveMatches, UsedBlocks, GrowthIn, StaysPut, MovesDown, Chosen,
         FitFor;
    a.LiveBlock(ptr);
    a.ValidState();
    a.InOrderNow();
    a.InMemory();
    var m, words := a.mem[..], BlockWords(size);
    GrowthOnTags(m, a.brk - 1, a.blocks, a.lists, ptr - 1, words);
    a.FailsByGrowth(ptr, size);
    a.WhenOutOfMemory(size);
    FitIsChosen(m, a.lists, i, words);
    if Chosen(m, a.lists, i, words, 0) {
      ChosenOnce(m, a.lists, i, words, FitFor(m, a.lists, words), 0);
    }
  }

  // Otherwise, when it is by four words: insert_free_block refuses the new block, and what stands where its list
  // links would be sends list_remove to an element outside of memory.
  method GrowByFour(a: Allocator, ptr: nat, size: nat) returns (ok: bool)
    requires a.Valid() && ptr in a.live && 0 < ptr <= a.mem.Length
    requires 0 < size < SIZE_VALUES && !Overflows(size) && a.Growth(ptr - 1, BlockWords(size)) == AtEnd
    requires BlockWords(size) - a.BlkSize(ptr - 1) == 4 && !a.CannotExtend(4)
    modifies a, a.mem
    ensures !ok && a.brk == old(a.brk) + 4 && a.NextBlk(ptr - 1) == old(a.brk) - 1
    ensures
      var elem := a.NextBlk(ptr - 1) + 2;
      elem + 1 < a.mem.Length && !Elem(a.mem[..], Ptr(a.mem[..], elem))
  {
    LastBlock(a, ptr, size);
    hide HeapState, LiveMatches, UsedBlocks, BlockWords, Overflows, GrowthIn;
    var bp := a.MemSbrk(4 * WSIZE);
    var blk := FourWords(a, bp);
    assert a.mem[blk - 1] % 2 == 1 && !a.BlkFree(a.NextBlk(blk));
    ok := a.InsertFreeBlock(blk);
    assert a.mem[blk + 3] == Pack(false, 4);
  }

  // The four words at bp, just got, and the epilogue before them become a block in no list and a new epilogue.
  method FourWords(a: Allocator, bp: nat) returns (blk: nat)
    requires a.mem.Length == HEAP_MAX && FIRST < bp && bp + 4 == a.brk <= HEAP_MAX
    requires HeapState(a.mem[..], bp - 1, a.blocks, a.lists, {})
    modifies a.mem
    ensures blk == bp - 1 && a.mem[blk] == a.mem[blk + 3] == Pack(false, 4) && a.mem[blk + 4] == FENCE
    ensures forall w :: 0 <= w < blk ==> a.mem[w] == old(a.mem[w])
    ensures Links(a.mem[..], a.lists) && Mids(a.mem[..]) && !Listed(a.lists, blk + 2) && blk % 4 == 3
  {
    ghost var m := a.mem[..];
    BeyondEpilogue(m, bp - 1, a.blocks, a.lists);
    hide HeapState, Links, Mids, Listed;
    blk := bp - 1;
    a.SetHeaderAndFooter(blk, 4, false);
    a.mem[a.NextBlk(blk)] := FENCE;
    BeyondElements(m, a.mem[..], bp - 1, a.blocks, a.lists);
  }

  lemma BeyondEpilogue(m: seq<Word>, epi: nat, s: set<nat>, lists: seq<seq<nat>>)
    requires HeapState(m, epi, s, lists, {})
    ensures epi % 4 == 3 && FIRST <= epi
  {
  }

  // The last block, used, and the epilogue after it.
  lemma LastBlock(a: Allocator, ptr: nat, size: nat)
    requires a.Valid() && ptr in a.live && 0 < ptr <= a.mem.Length && a.Growth(ptr - 1, BlockWords(size)) == AtEnd
    ensures a.NextBlk(ptr - 1) == a.brk - 1 && a.brk >= FIRST + 2 && a.mem[a.brk - 2] % 2 == 1 && ptr + 1 < a.brk
    ensures a.mem.Length == HEAP_MAX && HeapState(a.mem[..], a.brk - 1, a.blocks, a.lists, {}) && (a.brk - 1) % 4 == 3
    ensures a.BlkSize(ptr - 1) >= 2
  {
    a.LiveBlock(ptr);
    a.EpilogueOnly(ptr - 1);
    BlockExtent(a.mem[..], a.brk - 1, a.blocks, MIN_BLOCK_SIZE_WORDS, ptr - 1);
    assert Block(a.mem[..], a.brk - 1, a.blocks, MIN_BLOCK_SIZE_WORDS, ptr - 1);
  }

  // Words from the epilogue on are not in any list.
  lemma BeyondElements(m: seq<Word>, m': seq<Word>, epi: nat, s: set<nat>, lists: seq<seq<nat>>)
    requires HeapState(m, epi, s, lists, {}) && |m'| == |m| && forall w :: 0 <= w < epi ==> m'[w] == m[w]
    ensures Links(m', lists) && Mids(m') && !Listed(lists, epi + 2)
  {
    forall w | 0 <= w < |m| && (EndWord(w) || ElementWord(lists, w)) ensures m'[w] == m[w] {
      if ElementWord(lists, w) {
        TagIsNoElementWord(m, epi, s, lists, {}, w);
      }
    }
    LinksFrame(m, m', lists);
    forall i, k | 0 <= i < |lists| && 0 <= k < |lists[i]| ensures lists[i][k] != epi + 2 {
      assert Classed(m, s, lists, i, k);
      assert Block(m, epi, s, MIN_BLOCK_SIZE_WORDS, lists[i][k] - 2);
    }
  }

  // It happens: a payload of 104 bytes in a new heap grows to 128.
  method GrowthByFourWords() returns (a: Allocator, ptr: nat)
    ensures fresh(a) && fresh(a.mem) && 0 < ptr <= a.mem.Length
    ensures
      var elem := a.NextBlk(ptr - 1) + 2;
      elem + 1 < a.mem.Length && !Elem(a.mem[..], Ptr(a.mem[..], elem))
  {
    a := new Allocator();
    var rc := a.MmInit();
    NoneListed(a);
    SizesHere();
    hide HeapState, LiveMatches, UsedBlocks, FitFor, BlockWords, Overflows, GetsLess, SamePayloads, GrowthIn;
    ptr := a.MmMalloc(104);
    assert ptr != 0;
    OneBlock(a, ptr);
    var ok := GrowByFour(a, ptr, 128);
  }

  lemma SizesHere()
    ensures Max(BlockWords(104), CHUNKSIZE) == CHUNKSIZE && BlockWords(104) == 28 && BlockWords(128) == 36
    ensures (forall brk :: !GetsLess(brk, CHUNKSIZE)) && !Overflows(104) && !Overflows(128)
  {
  }

  lemma NoneListed(a: Allocator)
    requires a.Valid() && a.blocks == {}
    ensures |a.lists| == FREE_LISTS_SIZE && FitFor(a.mem[..], a.lists, BlockWords(104)) == 0
  {
    var m := a.mem[..];
    forall i | 0 <= i < FREE_LISTS_SIZE ensures a.lists[i] == [] {
      if a.lists[i] != [] {
        ElementSize(m, a.brk - 1, a.blocks, a.lists, {}, i, 0);
      }
    }
    if FitFor(m, a.lists, BlockWords(104)) != 0 {
      FitIsFree(m, a.brk - 1, a.blocks, a.lists, {}, BlockWords(104));
    }
  }

  lemma OneBlock(a: Allocator, ptr: nat)
    requires a.Valid() && ptr in a.live && 0 < ptr <= FIRST + 1 && a.brk == FIRST + 1 + CHUNKSIZE
    requires a.BlkSize(ptr - 1) >= 28
    ensures ptr == FIRST + 1 && a.BlkSize(ptr - 1) == 32 && a.Growth(ptr - 1, 36) == AtEnd && !a.CannotExtend(4)
  {
    a.LiveBlock(ptr);
    var m, epi, s := a.mem[..], a.brk - 1, a.blocks;
    BlockExtent(m, epi, s, MIN_BLOCK_SIZE_WORDS, ptr - 1);
    var n := FIRST + Size(m, FIRST);
    if n in s {
      BlockExtent(m, epi, s, MIN_BLOCK_SIZE_WORDS, n);
    }
    assert m[FIRST - 1] == FENCE && m[epi] == FENCE;
  }
}
