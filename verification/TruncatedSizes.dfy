/** Requests of malloclab/mm.c whose byte counts no int holds: what mem_sbrk and the 31-bit sizes make of them. */
module TruncatedSizes {
  import opened Memory
  import opened List
  import opened Layout
  import opened Ints
  import opened Requests
  import opened FreeLists
  import opened Blocks
  import opened Heap
  import opened Fit
  import opened Allocator
  import opened AllocatorTheorems

  // ----- how much is got, and where the tags go -----

  // Given the bytes of so many words, mem_sbrk gets memory, but less than that, exactly if GetsLess says so.
  lemma TruncationGetsLess(brk: nat, words: nat)
    requires words * WSIZE < SIZE_VALUES && brk <= HEAP_MAX
    ensures
      var incr := ToInt(words * WSIZE);
      GetsLess(brk, words) <==> !(incr < 0 || brk + incr / WSIZE > HEAP_MAX) && incr / WSIZE < words
  {
    hide ToInt;
    assert ToInt(words * WSIZE) <= INT_MAX;
    if words * WSIZE <= INT_MAX {
      IntFits(words * WSIZE);
    }
  }

  lemma IntFits(n: nat)
    requires n <= INT_MAX
    ensures ToInt(n) == n
  {
  }

  predicate BitThirty(words: nat) { words / 0x4000_0000 % 2 == 1 }

  // Where set_header_and_footer puts the footer of a block at b: by the size that it reads back from the header.
  function FooterAt(b: nat, size: int): int { b + size - 1 }

  // With bit 30 of the count set, the size in the tags is negative, and the footer of the block that starts at the old
  // epilogue would go below all memory; with bit 30 clear, it is just the words that were got, so the footer is the
  // last word but the epilogue, which for no words is the footer of the block before.
  lemma TagsByField(brk: nat, words: nat)
    requires GetsLess(brk, words) && 0 < brk
    ensures words >= 0x4000_0000 && 0 <= SbrkWords(words) < 0x2000_0000
    ensures
      var footer := FooterAt(brk - 1, SizeField(words));
      if BitThirty(words) then SizeField(words) == SbrkWords(words) - 0x4000_0000 && footer < 0
      else SizeField(words) == SbrkWords(words) && brk - 2 <= footer == brk + SbrkWords(words) - 2 < HEAP_MAX
  {
    var high, low := words / 0x4000_0000, words % 0x4000_0000;
    assert words == 0x4000_0000 * high + low;
    BytesByParts(high, low);
    FieldByParts(high, low);
  }

  lemma BytesByParts(high: nat, low: nat)
    requires low < 0x4000_0000
    ensures
      var bytes := (0x4000_0000 * high + low) * WSIZE;
      ToInt(bytes) == if low < 0x2000_0000 then 4 * low else 4 * low - 2 * (INT_MAX + 1)
  {
    var bytes := (0x4000_0000 * high + low) * WSIZE;
    assert bytes == 2 * (INT_MAX + 1) * high + 4 * low;
  }

  lemma FieldByParts(high: nat, low: nat)
    requires low < 0x2000_0000
    ensures SizeField(0x4000_0000 * high + low) == if high % 2 == 1 then low - 0x4000_0000 else low
  {
    hide ToInt31, SizeField;
    var n := 0x4000_0000 * high + low;
    SameField(n);
    FieldOf(n, (high + 1) / 2, if high % 2 == 1 then low - 0x4000_0000 else low);
  }

  lemma FieldOf(x: int, q: int, r: int)
    requires x == 0x8000_0000 * q + r && -0x4000_0000 <= r < 0x4000_0000
    ensures ToInt31(x) == r
  {
  }

  // The field keeps the same of an int as of the size_t that it comes from.
  lemma SameField(n: nat)
    ensures SizeField(n) == ToInt31(n)
  {
    var k := (ToInt(n) - n) / (2 * (INT_MAX + 1));
    hide ToInt, ToInt31;
    Congruent(ToInt(n), n, 2 * k);
  }

  lemma Congruent(x: int, y: int, q: int)
    requires x == y + 0x8000_0000 * q
    ensures ToInt31(x) == ToInt31(y)
  {
    hide ToInt31;
    var p := (y - ToInt31(y)) / 0x8000_0000;
    FieldOf(x, p + q, ToInt31(y));
  }

  // A word of a header gives the size that it was made of.
  lemma FieldBack(size: int)
    requires -0x4000_0000 <= size < 0x4000_0000
    ensures 0 <= 2 * (size % 0x8000_0000) < WORD_VALUES && ToInt31(2 * (size % 0x8000_0000) / 2) == size
  {
  }

  // ----- mm_malloc for such a request -----

  // It is too large for any block, so mm_malloc asks mem_sbrk for its words.
  lemma TooLargeToFit(a: Allocator, size: nat)
    requires a.Valid() && GetsLess(a.brk, Max(BlockWords(size), CHUNKSIZE))
    ensures |a.lists| == FREE_LISTS_SIZE && FitFor(a.mem[..], a.lists, BlockWords(size)) == 0
    ensures Max(BlockWords(size), CHUNKSIZE) == BlockWords(size)
  {
    var m, words := a.mem[..], BlockWords(size);
    assert |a.lists| == FREE_LISTS_SIZE;
    if FitFor(m, a.lists, words) != 0 {
      FitIsFree(m, a.brk - 1, a.blocks, a.lists, {}, words);
      BlockExtent(m, a.brk - 1, a.blocks, MIN_BLOCK_SIZE_WORDS, FitFor(m, a.lists, words));
    }
  }

  lemma WordsInSize(size: nat)
    requires size < SIZE_VALUES
    ensures BlockWords(size) * WSIZE < SIZE_VALUES && ToInt(BlockWords(size) * WSIZE) % WSIZE == 0
  {
    BytesInSize((size + 2 * WSIZE) % SIZE_VALUES);
    hide Align, ToInt;
    WholeWords(BlockWords(size));
  }

  lemma BytesInSize(n: nat)
    ensures Align(n) < SIZE_VALUES
  {
  }

  lemma WholeWords(words: nat)
    ensures ToInt(words * WSIZE) % WSIZE == 0
  {
  }

  // With bit 30 set: it gets memory, writes the header, and then has a footer to write that is below all memory.
  method MallocFooterBelow(a: Allocator, size: nat) returns (b: nat, footer: int)
    requires a.Valid() && 0 < size < SIZE_VALUES && !Overflows(size)
    requires GetsLess(a.brk, Max(BlockWords(size), CHUNKSIZE)) && BitThirty(BlockWords(size))
    modifies a, a.mem
    ensures b == old(a.brk) - 1 && a.brk == old(a.brk) + SbrkWords(BlockWords(size)) && b < a.mem.Length
    ensures footer == FooterAt(b, ToInt31(a.mem[b] / 2)) < 0
  {
    hide HeapState, LiveMatches, UsedBlocks, FitFor, BlockWords, Overflows, ToInt, ToInt31, GetsLess, SizeField, Links,
         Mids, SamePayloads, Allocator.Valid, Allocator.State;
    var words := BlockWords(size);
    a.ValidState();
    a.ReadyToFind();
    a.InMemory();
    WordsInSize(size);
    TooLargeToFit(a, size);
    TagsByField(a.brk, words);
    TruncationGetsLess(a.brk, words);
    FieldBack(SizeField(words));
    var bp := a.FindFit(words);
    bp := a.MemSbrk(ToInt(words * WSIZE));
    b := bp - 1;
    a.mem[b] := 2 * (SizeField(words) % 0x8000_0000);
    footer := FooterAt(b, ToInt31(a.mem[b] / 2));
  }

  // The remainder of a block of csize words after so many are taken, as place computes it, and its size in tags.
  lemma WrappedRemainder(csize: nat, words: nat)
    requires csize < 0x2000_0000 && 0x4000_0000 <= words && words * WSIZE < SIZE_VALUES
    requires 0 <= SizeField(words) <= csize
    ensures
      var left := (csize - words) % SIZE_VALUES;
      left >= MIN_BLOCK_SIZE_WORDS && SizeField(left) == csize - SizeField(words)
  {
    hide ToInt31, SizeField;
    var field, left := SizeField(words), (csize - words) % SIZE_VALUES;
    assert left == csize - words + SIZE_VALUES;
    SameField(left);
    SameField(words);
    var q := Quotient(field, words);
    FieldOf(left, 0x2_0000_0000 - q, csize - field);
  }

  // What the field loses of a count.
  lemma Quotient(field: int, words: nat) returns (q: int)
    requires field == ToInt31(words)
    ensures words == field + 0x8000_0000 * q
  {
    hide ToInt31;
    q := (words - field) / 0x8000_0000;
  }

  // The last block before the epilogue, if there is one, is not shorter than any.
  lemma StartsBefore(m: seq<Word>, epi: nat, s: set<nat>, lists: seq<seq<nat>>, e: nat, b: nat)
    requires HeapState(m, epi, s, lists, {}) && b in Joined(s + {epi}, b, e)
    ensures (b == epi || b + MIN_BLOCK_SIZE_WORDS <= epi) && (epi - b) % 4 == 0
  {
    if b in s {
      BlockExtent(m, epi, s, MIN_BLOCK_SIZE_WORDS, b);
    }
  }

  // Only the tags of the last block, which is free and in no list, and the epilogue have been written.
  lemma EndWritten(m: seq<Word>, m': seq<Word>, epi: nat, s: set<nat>, lists: seq<seq<nat>>, b: nat)
    requires HeapState(m, epi, s, lists, {b}) && b in s && b < |m| && b + Size(m, b) == epi && !Used(m, b)
    requires |m'| == |m| && forall w :: 0 <= w < |m| && w != b && w != epi - 1 && w != epi ==> m'[w] == m[w]
    ensures Links(m', lists) && Mids(m') && !Listed(lists, epi + 2) && Keeps(m, m', UsedBlocks(m, s))
  {
    BlockExtent(m, epi, s, MIN_BLOCK_SIZE_WORDS, b);
    forall w | 0 <= w < |m| && (EndWord(w) || ElementWord(lists, w)) ensures m'[w] == m[w] {
      NotElementWord(m, epi, s, lists, {b}, b, b);
      NotElementWord(m, epi, s, lists, {b}, b, epi - 1);
      if ElementWord(lists, w) {
        TagIsNoElementWord(m, epi, s, lists, {b}, w);
      }
    }
    LinksFrame(m, m', lists);
    forall c | c in UsedBlocks(m, s) ensures KeepsBlock(m, m', c) {
      BlockExtent(m, epi, s, MIN_BLOCK_SIZE_WORDS, c);
      BlocksDisjoint(m, epi, s, MIN_BLOCK_SIZE_WORDS, b, c);
    }
    EpilogueUnlisted(m, epi, s, lists, {b});
  }

  lemma EpilogueUnlisted(m: seq<Word>, epi: nat, s: set<nat>, lists: seq<seq<nat>>, x: set<nat>)
    requires HeapState(m, epi, s, lists, x)
    ensures !Listed(lists, epi + 2)
  {
    if epi in s {
      BlockExtent(m, epi, s, MIN_BLOCK_SIZE_WORDS, epi);
    }
    NotListed(m, s, lists, x, epi);
  }

  // place when the remainder has size 0 in its tags: its header is the epilogue, its footer that of the block.
  method PlaceOverEpilogue(a: Allocator, bp: nat, left: nat)
    requires a.State({}) && bp in a.blocks && bp < a.mem.Length && a.BlkFree(bp) && bp + a.BlkSize(bp) == a.brk - 1
    requires SizeField(left) == 0
    modifies a.mem, a`lists
    ensures a.BlkSize(bp) == old(a.BlkSize(bp)) && a.mem[a.brk - 1] == Pack(false, 0)
    ensures Keeps(old(a.mem[..]), a.mem[..], old(a.UsedNow()))
  {
    a.InMemory();
    hide HeapState, Keeps, UsedBlocks, SameTags, Tagged, Links, Mids, Listed, LinksTouched, With, FitIndex;
    ghost var m, u, epi, s, k := a.mem[..], a.UsedNow(), a.brk - 1, a.blocks, a.BlkSize(bp);
    Extent(m, epi, s, a.lists, {}, bp);
    ghost var n := a.MarkUsedAndRemove(bp, a.BlkSize(bp));
    BoundaryKept(m, n, epi, s, old(a.lists), {}, bp);
    a.TaggedAround(n, bp, k, true);
    ghost var m2 := a.mem[..];
    var rest := a.NextBlk(bp);
    a.mem[rest] := Pack(false, 0);
    a.mem[rest - 1] := a.mem[rest];
    WrittenOver(n, m2, a.mem[..], bp, k);
    EndWritten(n, a.mem[..], epi, s, a.lists, bp);
    KeepsTransitive(m, n, a.mem[..], u);
    var ok := a.InsertFreeBlock(rest);
  }

  lemma WrittenOver(n: seq<Word>, m2: seq<Word>, m': seq<Word>, b: nat, k: nat)
    requires 0 < k < 0x4000_0000 && b + k < |n| && m2 == Tagged(n, b, k, true)
    requires m' == m2[b + k := Pack(false, 0)][b + k - 1 := Pack(false, 0)]
    ensures |m'| == |n| && forall w :: 0 <= w < |n| && w != b && w != b + k - 1 && w != b + k ==> m'[w] == n[w]
  {
  }

  // The epilogue would be a fence.
  lemma NotInOrder(a: Allocator)
    requires 0 < a.brk <= a.mem.Length && a.mem[a.brk - 1] != FENCE
    ensures !a.State({})
  {
  }

  // extend_heap when it gets words for a block, but fewer than it was meant to.
  method ExtendByLess(a: Allocator, words: nat) returns (bp: nat)
    requires a.State({}) && words % 4 == 0 && GetsLess(a.brk, words) && !BitThirty(words)
    requires SbrkWords(words) >= MIN_BLOCK_SIZE_WORDS
    modifies a, a.mem
    ensures a.State({}) && a.brk == old(a.brk) + SbrkWords(words) <= a.mem.Length && a.live == old(a.live)
    ensures bp in a.blocks && bp < old(a.brk) && bp < a.mem.Length && a.BlkFree(bp) && bp + a.BlkSize(bp) == a.brk - 1
    ensures bp == old(a.brk) - 1 || bp + MIN_BLOCK_SIZE_WORDS < old(a.brk)
    ensures a.UsedNow() == old(a.UsedNow()) && Keeps(old(a.mem[..]), a.mem[..], old(a.UsedNow()))
    ensures SizeField(words) == SbrkWords(words)
  {
    hide HeapState, UsedBlocks, ToInt, ToInt31, Keeps, Joined, GetsLess, SizeField, SbrkWords;
    ghost var m, epi, s, l := a.mem[..], a.brk - 1, a.blocks, a.lists;
    TagsByField(a.brk, words);
    bp := a.ExtendHeap(words);
    StartsBefore(m, epi, s, l, a.brk - 1, bp);
  }

  // place for more words than the free block at the end of the heap has, if by their size in tags they fit.
  method PlaceWrapped(a: Allocator, bp: nat, words: nat)
    requires a.State({}) && bp in a.blocks && bp < a.mem.Length && a.BlkFree(bp) && bp + a.BlkSize(bp) == a.brk - 1
    requires 0x4000_0000 <= words && words * WSIZE < SIZE_VALUES && words % 4 == 0
    requires MIN_BLOCK_SIZE_WORDS <= SizeField(words)
    requires a.BlkSize(bp) == SizeField(words) || a.BlkSize(bp) >= SizeField(words) + MIN_BLOCK_SIZE_WORDS
    modifies a, a.mem
    ensures a.BlkSize(bp) == SizeField(words) && a.brk == old(a.brk)
    ensures Keeps(old(a.mem[..]), a.mem[..], old(a.UsedNow()))
    ensures old(a.BlkSize(bp)) > SizeField(words) ==> a.State({}) && a.UsedNow() == old(a.UsedNow()) + {bp}
    ensures old(a.BlkSize(bp)) == SizeField(words) ==> a.mem[a.brk - 1] == Pack(false, 0)
  {
    hide HeapState, UsedBlocks, Keeps, Joined, ToInt, ToInt31;
    SameField(words);
    var csize := a.BlkSize(bp);
    a.InMemory();
    WrappedRemainder(csize, words);
    FieldOfFours(words);
    var left := (csize - words) % SIZE_VALUES;
    if left >= MIN_BLOCK_SIZE_WORDS {
      if SizeField(left) > 0 {
        a.PlaceSplit(bp, SizeField(words));
      } else {
        PlaceOverEpilogue(a, bp, left);
      }
    }
  }

  lemma FieldOfFours(words: nat)
    requires words % 4 == 0
    ensures SizeField(words) % 4 == 0
  {
    hide ToInt31, SizeField;
    SameField(words);
    var q := Quotient(SizeField(words), words);
  }

  // With bit 30 clear and enough words for a block: the heap grows by the words that were got, and mm_malloc returns a
  // payload in them that is smaller than asked for. The heap is in order afterwards if the last block before was free;
  // otherwise the epilogue is no fence any more.
  method MallocGetsSmaller(a: Allocator, size: nat) returns (p: nat)
    requires a.Valid() && 0 < size < SIZE_VALUES && !Overflows(size)
    requires GetsLess(a.brk, Max(BlockWords(size), CHUNKSIZE)) && !BitThirty(BlockWords(size))
    requires SbrkWords(BlockWords(size)) >= MIN_BLOCK_SIZE_WORDS
    modifies a, a.mem
    ensures 0 < p <= old(a.brk) && a.brk == old(a.brk) + SbrkWords(BlockWords(size)) <= a.mem.Length
    ensures a.BlkSize(p - 1) == SbrkWords(BlockWords(size)) && (a.BlkSize(p - 1) - 2) * WSIZE < size
    ensures Keeps(old(a.mem[..]), a.mem[..], old(a.UsedNow()))
    ensures p < old(a.brk) ==> a.State({}) && a.UsedNow() == old(a.UsedNow()) + {p - 1}
    ensures p == old(a.brk) ==> a.mem[a.brk - 1] == Pack(false, 0) && !a.State({})
  {
    hide HeapState, LiveMatches, UsedBlocks, FitFor, BlockWords, Overflows, ToInt, ToInt31, Keeps, GetsLess,
         SizeField, SbrkWords, BitThirty, Links, Mids, Allocator.State, Allocator.Valid, SamePayloads;
    ghost var m, u := a.mem[..], a.UsedNow();
    a.ValidState();
    a.ReadyToFind();
    a.InMemory();
    WordsInSize(size);
    TooLargeToFit(a, size);
    TagsByField(a.brk, BlockWords(size));
    MoreThanGot(size);
    var words := BlockWords(size);
    var bp := a.FindFit(words);
    bp := ExtendByLess(a, words);
    ghost var m1 := a.mem[..];
    PlaceWrapped(a, bp, words);
    KeepsTransitive(m, m1, a.mem[..], u);
    p := bp + 1;
    if p == old(a.brk) {
      NotInOrder(a);
    }
  }

  lemma MoreThanGot(size: nat)
    requires 0 < size < SIZE_VALUES && !Overflows(size) && BlockWords(size) >= 0x4000_0000
    ensures SbrkWords(BlockWords(size)) < 0x2000_0000 && 0x2000_0000 * WSIZE < size
  {
    BlockWordsSuffice(size);
    hide BlockWords, Overflows;
    assert ToInt(BlockWords(size) * WSIZE) <= INT_MAX;
  }

  // With bit 30 clear and no words: the tags of a block of no words go over the epilogue and the footer before it,
  // FENCE takes the place of the header, and coalesce finds the block free and its own predecessor, with an element
  // that lies beyond the heap.
  method MallocGetsNothing(a: Allocator, size: nat) returns (b: nat)
    requires a.Valid() && 0 < size < SIZE_VALUES && !Overflows(size)
    requires GetsLess(a.brk, Max(BlockWords(size), CHUNKSIZE)) && !BitThirty(BlockWords(size))
    requires SbrkWords(BlockWords(size)) == 0
    modifies a, a.mem
    ensures a.brk == old(a.brk) && b == a.brk - 1 && 0 < b < a.mem.Length
    ensures a.mem[..] == old(a.mem[..])[b - 1 := Pack(false, 0)][b := FENCE]
    ensures a.BlkFree(b - 1) && !a.BlkFree(a.NextBlk(b)) && a.PrevBlk(b) == b && a.brk < b + 2
  {
    hide HeapState, LiveMatches, UsedBlocks, FitFor, BlockWords, Overflows, ToInt31, GetsLess,
         Links, Mids, Allocator.State, Allocator.Valid, SamePayloads;
    a.ValidState();
    a.ReadyToFind();
    a.InMemory();
    WordsInSize(size);
    TooLargeToFit(a, size);
    TagsByField(a.brk, BlockWords(size));
    var words := BlockWords(size);
    var bp := a.FindFit(words);
    bp := a.MemSbrk(ToInt(words * WSIZE));
    b := bp - 1;
    a.mem[b] := Pack(false, SizeField(words));
    a.mem[b + a.BlkSize(b) - 1] := a.mem[b];
    a.mem[a.NextBlk(b)] := FENCE;
  }

  // Where the free block before the epilogue starts, or the epilogue.
  ghost function EndStart(m: seq<Word>, epi: nat): int {
    if 0 < epi <= |m| && !Used(m, epi - 1) then epi - Size(m, epi - 1) else epi
  }

  // The list links of the free block before the epilogue have been taken out; m had more words after the epilogue.
  lemma UnlinkedLast(m0: seq<Word>, m: seq<Word>, m': seq<Word>, epi: nat, s: set<nat>, lists: seq<seq<nat>>,
                     i: nat, k: nat, b: nat)
    requires HeapState(m0, epi, s, lists, {}) && i < |lists| && k < |lists[i]| && !Used(m0, epi - 1)
    requires |m| == |m0| && (forall w :: 0 <= w < epi ==> m[w] == m0[w]) && Mids(m)
    requires b == EndStart(m0, epi) && lists[i][k] == b + 2 && LinksTouched(m, m', lists)
    ensures
      var lists' := lists[i := Without(lists[i], k)];
      && FIRST <= b < epi && b % 4 == 3 && Size(m0, epi - 1) >= MIN_BLOCK_SIZE_WORDS
      && Mids(m') && !Listed(lists', b + 2) && !ElementWord(lists', b)
      && m'[b] == m'[epi - 1] == m0[epi - 1]
      && forall w :: epi <= w < |m| ==> !ElementWord(lists', w) && m'[w] == m[w]
  {
    var lists' := lists[i := Without(lists[i], k)];
    FreeBefore(m0, epi, s, lists, {}, epi);
    Extent(m0, epi, s, lists, {}, b);
    Unlisted(m0, s, lists, {}, i, k);
    NotElementWord(m0, epi, s, lists, {}, b, b);
    NotElementWord(m0, epi, s, lists, {}, b, epi - 1);
    WithoutWords(lists, i, k, b);
    forall w | epi <= w < |m| ensures !ElementWord(lists', w) && m'[w] == m[w] {
      NotInElements(m0, epi, s, lists, w);
      WithoutWords(lists, i, k, w);
    }
    forall j | 0 <= j < FREE_LISTS_SIZE ensures m'[MidAt(j)] == m[MidAt(j)] {
      NotInElements(m0, epi, s, lists, MidAt(j));
    }
  }

  lemma NotInElements(m: seq<Word>, epi: nat, s: set<nat>, lists: seq<seq<nat>>, w: nat)
    requires HeapState(m, epi, s, lists, {}) && (w < FIRST || epi <= w)
    ensures !ElementWord(lists, w)
  {
    if ElementWord(lists, w) {
      TagIsNoElementWord(m, epi, s, lists, {}, w);
    }
  }

  // coalesce of four words with the free block before them.
  method JoinFour(a: Allocator, blk: nat, ghost m0: seq<Word>) returns (b: nat)
    requires HeapState(m0, blk, a.blocks, a.lists, {}) && !Used(m0, blk - 1) && a.mem.Length == |m0| == HEAP_MAX
    requires Links(a.mem[..], a.lists) && Mids(a.mem[..]) && blk + 4 < a.mem.Length && a.BlkSize(blk) == 4
    requires forall w :: 0 <= w < blk ==> a.mem[w] == m0[w]
    modifies a.mem, a`lists
    ensures b == EndStart(m0, blk) && FIRST <= b < blk
    ensures b + MIN_BLOCK_SIZE_WORDS <= blk && a.BlkSize(b) == blk - b + 4
  {
    hide HeapState, Links, Mids, LinksTouched, Listed, ElementWord, Tagged, With;
    ghost var m, s, lists := a.mem[..], a.blocks, a.lists;
    FreeBefore(m0, blk, s, lists, {}, blk);
    ghost var p := a.PrevBlk(blk);
    ghost var i, k := PositionOf(a, m0, blk, s, lists, p);
    a.RemoveFreeBlock(a.PrevBlk(blk), i, k);
    UnlinkedLast(m0, m, a.mem[..], blk, s, lists, i, k, p);
    b := a.PrevBlk(blk);
    var size := a.BlkSize(blk) + a.BlkSize(b);
    TaggedKeepsLinks(a.mem[..], a.lists, b, size, false);
    a.TaggedAround(a.mem[..], b, size, false);
    a.SetHeaderAndFooter(b, size, false);
    ghost var m3, lists1 := a.mem[..], a.lists;
    var ok := a.InsertFreeBlock(b);
    PushedWords(lists1, FitIndex(size), size < RANGES[FitIndex(size)] / 2, b + 2, b);
    Untouched(m3, a.mem[..], a.lists, b);
  }

  // coalesce of four words, which lie after the heap that m0 was.
  method CoalesceFour(a: Allocator, blk: nat, ghost m0: seq<Word>) returns (b: nat)
    requires HeapState(m0, blk, a.blocks, a.lists, {}) && a.mem.Length == |m0| == HEAP_MAX && FIRST <= blk
    requires Links(a.mem[..], a.lists) && Mids(a.mem[..]) && !Listed(a.lists, blk + 2) && blk % 4 == 3
    requires blk + 4 < a.mem.Length && a.BlkSize(blk) == 4 && forall w :: 0 <= w < blk ==> a.mem[w] == m0[w]
    modifies a.mem, a`lists
    ensures b == EndStart(m0, blk) && b <= blk && a.BlkSize(b) == blk - b + 4
  {
    hide HeapState, Links, Mids, LinksTouched, Listed, With;
    if a.mem[blk - 1] % 2 == 1 {
      var ok := a.InsertFreeBlock(blk);
      return blk;
    }
    b := JoinFour(a, blk, m0);
  }

  lemma Untouched(m: seq<Word>, m': seq<Word>, lists: seq<seq<nat>>, w: nat)
    requires LinksTouched(m, m', lists) && !ElementWord(lists, w) && FIRST <= w < |m|
    ensures m'[w] == m[w]
  {
  }

  lemma PushedWords(lists: seq<seq<nat>>, i: nat, front: bool, e: nat, w: nat)
    requires i < |lists| && !ElementWord(lists, w) && !(e <= w < e + ELEM_WORDS)
    ensures !ElementWord(lists[i := Pushed(lists[i], e, front)], w)
  {
    var lists', d := lists[i := Pushed(lists[i], e, front)], if front then 1 else 0;
    forall p, q | 0 <= p < |lists'| && 0 <= q < |lists'[p]| ensures !(lists'[p][q] <= w < lists'[p][q] + ELEM_WORDS) {
      if p != i {
        assert lists'[p][q] == lists[p][q];
      } else if 0 <= q - d < |lists[i]| {
        assert lists'[p][q] == lists[p][q - d];
      }
    }
  }

  lemma AsState(a: Allocator)
    requires a.State({})
    ensures HeapState(a.mem[..], a.brk - 1, a.blocks, a.lists, {})
  {
  }

  lemma PositionOf(a: Allocator, m: seq<Word>, epi: nat, s: set<nat>, lists: seq<seq<nat>>, b: nat)
    returns (i: nat, k: nat)
    requires HeapState(m, epi, s, lists, {}) && b in s && b < |m| && !Used(m, b)
    ensures i < |lists| && k < |lists[i]| && lists[i][k] == b + 2
  {
    i, k := a.Position(m, s, lists, {}, b);
  }

  // With bit 30 clear and four words, which are no block: extend_heap joins them with a free block before them, and
  // otherwise insert_free_block refuses them; place then writes a used block of four words, whose footer is in the
  // list links of the block that is there, and sends list_remove to an element outside of memory.
  method MallocGetsFour(a: Allocator, size: nat) returns (b: nat)
    requires a.Valid() && 0 < size < SIZE_VALUES && !Overflows(size)
    requires GetsLess(a.brk, Max(BlockWords(size), CHUNKSIZE)) && !BitThirty(BlockWords(size))
    requires SbrkWords(BlockWords(size)) == 4
    modifies a, a.mem
    ensures a.brk == old(a.brk) + 4 && b == old(EndStart(a.mem[..], a.brk - 1)) && b + 3 < a.mem.Length
    ensures a.mem[b] == a.mem[b + 3] == Pack(true, 4) && !Elem(a.mem[..], Ptr(a.mem[..], b + 2))
  {
    hide HeapState, LiveMatches, UsedBlocks, FitFor, BlockWords, Overflows, ToInt, ToInt31, GetsLess, SizeField,
         Links, Mids, Allocator.State, Allocator.Valid, SamePayloads, Listed, With, LinksTouched, BitThirty, Align;
    ghost var m := a.mem[..];
    a.ValidState();
    a.ReadyToFind();
    a.InMemory();
    AsState(a);
    WordsInSize(size);
    TooLargeToFit(a, size);
    TagsByField(a.brk, BlockWords(size));
    TruncationGetsLess(a.brk, BlockWords(size));
    var words := BlockWords(size);
    var bp := a.FindFit(words);
    bp := a.MemSbrk(ToInt(words * WSIZE));
    var blk := FourWords(a, bp);
    b := CoalesceFour(a, blk, m);
    WrappedRemainder(a.BlkSize(b), words);
    var left := (a.BlkSize(b) - words) % SIZE_VALUES;
    if left >= MIN_BLOCK_SIZE_WORDS {
      a.SetHeaderAndFooter(b, SizeField(words), true);
    }
  }

  // ----- mm_realloc for such a growth at the end of the heap -----

  // A free block that reaches from before the word e to the end of the heap starts there if a used block ends there.
  lemma StartsAtEnd(m: seq<Word>, epi: nat, s: set<nat>, lists: seq<seq<nat>>, b: nat, f: nat)
    requires HeapState(m, epi, s, lists, {}) && b in UsedBlocks(m, s) && f in s && f < |m| && !Used(m, f)
    requires b < |m| && f <= b + Size(m, b) && f + Size(m, f) == epi && b < epi
    ensures f == b + Size(m, b) && b in s
  {
    BlockExtent(m, epi, s, MIN_BLOCK_SIZE_WORDS, b);
    BlockExtent(m, epi, s, MIN_BLOCK_SIZE_WORDS, f);
  }

  lemma FieldOfSum(size: nat, growth: nat)
    requires 0 <= SizeField(growth) && size + SizeField(growth) < 0x4000_0000
    ensures SizeField(size + growth) == size + SizeField(growth)
  {
    hide ToInt31, SizeField;
    SameField(growth);
    SameField(size + growth);
    var q := Quotient(SizeField(growth), growth);
    FieldOf(size + growth, q, size + SizeField(growth));
  }

  // Case 5 of mm_realloc for the last block.
  method GrowByLess(a: Allocator, b: nat, words: nat)
    requires a.State({}) && b in a.UsedNow() && b in a.blocks && b < a.mem.Length && a.NextBlk(b) == a.brk - 1
    requires a.BlkSize(b) % 4 == 0 && a.BlkSize(b) < words && words % 4 == 0
    requires
      var growth := words - a.BlkSize(b);
      GetsLess(a.brk, growth) && !BitThirty(growth) && SbrkWords(growth) >= MIN_BLOCK_SIZE_WORDS
    modifies a, a.mem
    ensures a.State({}) && a.UsedNow() == old(a.UsedNow())
    ensures a.BlkSize(b) == old(a.BlkSize(b) + SbrkWords(words - a.BlkSize(b))) < 0x2000_0000
    ensures Keeps(old(a.mem[..]), a.mem[..], old(a.UsedNow()) - {b})
    ensures old(a.BlkSize(b)) >= 2 && Copied(old(a.mem[..]), a.mem[..], b + 1, b + 1, old(a.BlkSize(b)) - 2)
  {
    hide HeapState, UsedBlocks, Keeps, ToInt, ToInt31, GetsLess, SizeField, SbrkWords, BitThirty, Copied;
    ghost var m, u := a.mem[..], a.UsedNow();
    Extent(m, a.brk - 1, a.blocks, a.lists, {}, b);
    var size := a.BlkSize(b);
    var bp := ExtendByLess(a, words - size);
    ghost var m1 := a.mem[..];
    KeptWords(m, m1, u, b);
    a.KeptInside(m, m1, u, b);
    KeepsLess(m, m1, u, u - {b});
    StartsAtEnd(m1, a.brk - 1, a.blocks, a.lists, b, bp);
    FieldOfSum(size, words - size);
    a.GrowIntoNext(b, SizeField(words));
    a.CopiedOn(m, m1, a.mem[..], b + 1, size - 2);
    KeepsTransitive(m, m1, a.mem[..], u - {b});
  }

  // With bit 30 clear and enough words for a block: the payload stays where it is and keeps what it holds, the heap
  // is in order, but the block has grown only by the words that were got and is smaller than asked for.
  method ReallocGetsSmaller(a: Allocator, ptr: nat, size: nat) returns (r: nat)
    requires a.Valid() && ptr in a.live && 0 < ptr <= a.mem.Length && 0 < size < SIZE_VALUES && !Overflows(size)
    requires a.Growth(ptr - 1, BlockWords(size)) == AtEnd && BlockWords(size) > a.BlkSize(ptr - 1)
    requires
      var growth := BlockWords(size) - a.BlkSize(ptr - 1);
      GetsLess(a.brk, growth) && !BitThirty(growth) && SbrkWords(growth) >= MIN_BLOCK_SIZE_WORDS
    modifies a, a.mem
    ensures r == ptr && a.State({}) && a.UsedNow() == old(a.UsedNow())
    ensures a.BlkSize(r - 1) == old(a.BlkSize(r - 1) + SbrkWords(BlockWords(size) - a.BlkSize(r - 1)))
    ensures (a.BlkSize(r - 1) - 2) * WSIZE < size
    ensures Keeps(old(a.mem[..]), a.mem[..], old(a.UsedNow()) - {r - 1})
    ensures old(a.BlkSize(r - 1)) >= 2 && Copied(old(a.mem[..]), a.mem[..], r, r, old(a.BlkSize(r - 1)) - 2)
  {
    hide HeapState, LiveMatches, UsedBlocks, BlockWords, Overflows, GrowthIn, Keeps, ToInt, ToInt31, GetsLess,
         SizeField,
         SbrkWords, BitThirty, Copied, Allocator.State, Allocator.Valid;
    a.ValidState();
    LastBlock(a, ptr, size);
    a.LiveBlock(ptr);
    TagsByField(a.brk, BlockWords(size) - a.BlkSize(ptr - 1));
    MoreThanGot(size);
    var oldblock, newblocksize := ptr - 1, BlockWords(size);
    GrowByLess(a, oldblock, newblocksize);
    r := ptr;
  }

  // ----- each of them happens in a new heap -----

  // With bit 30 set: 4 GiB less the tags.
  method FourGigabytes() returns (a: Allocator, b: nat, footer: int)
    ensures fresh(a) && fresh(a.mem) && b < a.mem.Length && footer == FooterAt(b, ToInt31(a.mem[b] / 2)) < 0
  {
    a := new Allocator();
    var rc := a.MmInit();
    RequestSizes(a.brk);
    hide BlockWords, Overflows, GetsLess, ToInt31, SbrkWords, BitThirty;
    b, footer := MallocFooterBelow(a, 0xFFFF_FFF8);
  }

  // With bit 30 clear: 8 GiB and 392 bytes, for which 392 bytes are got.
  method EightGigabytes() returns (a: Allocator, p: nat)
    ensures fresh(a) && fresh(a.mem) && 0 < p < a.brk <= a.mem.Length
    ensures a.BlkSize(p - 1) == 100 && a.mem[a.brk - 1] == Pack(false, 0)
  {
    a := new Allocator();
    var rc := a.MmInit();
    RequestSizes(a.brk);
    hide BlockWords, Overflows, GetsLess, ToInt31, SbrkWords, BitThirty;
    p := MallocGetsSmaller(a, 0x2_0000_0188);
    AtFirst(a, p);
  }

  lemma RequestSizes(brk: nat)
    requires brk == FIRST + 1
    ensures BlockWords(0xFFFF_FFF8) == 0x4000_0000 && !Overflows(0xFFFF_FFF8) && BitThirty(0x4000_0000)
    ensures GetsLess(brk, Max(0x4000_0000, CHUNKSIZE))
    ensures BlockWords(0x2_0000_0188) == 0x8000_0064 && !Overflows(0x2_0000_0188) && !BitThirty(0x8000_0064)
    ensures GetsLess(brk, Max(0x8000_0064, CHUNKSIZE)) && SbrkWords(0x8000_0064) == 100
  {
  }

  // A used block does not start before the heap does.
  lemma AtFirst(a: Allocator, p: nat)
    requires 0 < p <= FIRST + 1 && (p < FIRST + 1 ==> a.State({}) && p - 1 in a.UsedNow())
    ensures p == FIRST + 1
  {
    if p < FIRST + 1 {
      BlockExtent(a.mem[..], a.brk - 1, a.blocks, MIN_BLOCK_SIZE_WORDS, p - 1);
    }
  }
}
