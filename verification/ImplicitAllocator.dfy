/** The allocator of malloclab/mm-gback-implicit.c: first fit over boundary-tagged blocks, without free lists. */
module ImplicitAllocator {
  import opened Memory
  import opened Bytes
  import opened Ints
  import opened Layout
  import opened Requests
  import opened Blocks
  import opened Walks

  const MIN_BLOCK_SIZE_WORDS := 4
  const CHUNKSIZE := 1024

  function BlockWords(size: nat): (w: nat)
    ensures w >= MIN_BLOCK_SIZE_WORDS && w % 4 == 0
  {
    Max(MIN_BLOCK_SIZE_WORDS, BlockBytes(size) / WSIZE)
  }

  lemma BlockWordsSuffice(size: nat)
    requires size < SIZE_VALUES && !Overflows(size) && 0 < size
    ensures size + 2 * WSIZE <= BlockWords(size) * WSIZE
    ensures BlockWords(size) == MIN_BLOCK_SIZE_WORDS || BlockWords(size) * WSIZE < size + 2 * WSIZE + ALIGNMENT
  {
    hide BlockBytes, Overflows;
    BytesSuffice(size);
    AlignedWords(BlockBytes(size), MIN_BLOCK_SIZE_WORDS);
  }

  // Blocks tile the heap, and of two adjacent free ones, one is in x.
  ghost predicate HeapState(m: seq<Word>, epi: nat, s: set<nat>, x: set<nat>) {
    Tiled(m, epi, s, MIN_BLOCK_SIZE_WORDS) && Coalesced(m, s, x)
  }

  // ----- one step on the whole heap -----

  // The blocks from b to e are free, with used ones around them.
  ghost predicate FreeStretch(m: seq<Word>, epi: nat, s: set<nat>, b: nat, e: nat) {
    && b in s && e in s + {epi} && FIRST <= b < e < |m| && Used(m, b - 1) && Used(m, e)
    && forall c :: c in s && b <= c < e ==> c < |m| && !Used(m, c)
  }

  // The pending block bp with what is free before and after it.
  lemma Around(m: seq<Word>, epi: nat, s: set<nat>, bp: nat)
    requires HeapState(m, epi, s, {bp}) && bp in s && bp < |m| && !Used(m, bp)
    ensures FIRST <= bp && MIN_BLOCK_SIZE_WORDS <= Size(m, bp) && bp + Size(m, bp) <= epi < |m|
    ensures
      var n := bp + Size(m, bp);
      if Used(m, bp - 1)
      then if Used(m, n) then FreeStretch(m, epi, s, bp, n)
           else n + Size(m, n) <= epi && FreeStretch(m, epi, s, bp, n + Size(m, n))
      else
        && FIRST + MIN_BLOCK_SIZE_WORDS + Size(m, bp - 1) <= bp + MIN_BLOCK_SIZE_WORDS <= bp + Size(m, bp - 1)
        && var p := bp - Size(m, bp - 1);
        && m[p] == m[bp - 1]
        && if Used(m, n) then FreeStretch(m, epi, s, p, n)
           else n + Size(m, n) <= epi && FreeStretch(m, epi, s, p, n + Size(m, n))
  {
    BlockExtent(m, epi, s, MIN_BLOCK_SIZE_WORDS, bp);
    FreeBlockBefore(m, epi, s, MIN_BLOCK_SIZE_WORDS, {bp}, bp);
    FreeBlockAfter(m, epi, s, MIN_BLOCK_SIZE_WORDS, {bp}, bp + Size(m, bp));
  }

  lemma Alone(m: seq<Word>, epi: nat, s: set<nat>, bp: nat)
    requires HeapState(m, epi, s, {bp}) && bp < |m| && FreeStretch(m, epi, s, bp, bp + Size(m, bp))
    ensures HeapState(m, epi, s, {}) && Keeps(m, m, UsedBlocks(m, s)) && s == Joined(s, bp, bp + Size(m, bp))
  {
    SettledCoalesced(m, epi, s, MIN_BLOCK_SIZE_WORDS, {bp}, bp);
    KeepsSelf(m, epi, s, MIN_BLOCK_SIZE_WORDS);
    JoinOfOne(m, epi, s, MIN_BLOCK_SIZE_WORDS, bp);
    assert {bp} - {bp} == {};
  }

  // Tagging as one free block from b to e what was free there, between used blocks.
  lemma AfterMerge(m: seq<Word>, epi: nat, s: set<nat>, bp: nat, b: nat, e: nat)
    requires HeapState(m, epi, s, {bp}) && FreeStretch(m, epi, s, b, e) && b <= bp < e < FIRST + 0x4000_0000
    ensures FIRST <= b && e <= epi < |m|
    ensures
      var m' := Tagged(m, b, e - b, false);
      && HeapState(m', epi, Joined(s, b, e), {}) && UsedBlocks(m', Joined(s, b, e)) == UsedBlocks(m, s)
      && Keeps(m, m', UsedBlocks(m, s))
  {
    hide Tiled, Coalesced, Tagged, JoinsTags, FreeStretch;
    StretchExtent(m, epi, s, b, e);
    var m' := Tagged(m, b, e - b, false);
    TaggedJoins(m, epi, s, MIN_BLOCK_SIZE_WORDS, b, e, false);
    JoinTiles(m, m', epi, s, MIN_BLOCK_SIZE_WORDS, b, e);
    JoinedCoalesced(m, m', epi, s, MIN_BLOCK_SIZE_WORDS, {bp}, b, e);
    JoinedUsed(m, m', epi, s, MIN_BLOCK_SIZE_WORDS, b, e);
    assert PendingJoined({bp}, b, e, false) == {b} && {b} - {b} == {};
    TaggedWords(m, b, e - b, false, b - 1);
    TaggedWords(m, b, e - b, false, e);
    SettledCoalesced(m', epi, Joined(s, b, e), MIN_BLOCK_SIZE_WORDS, {b}, b);
  }

  lemma StretchExtent(m: seq<Word>, epi: nat, s: set<nat>, b: nat, e: nat)
    requires Tiled(m, epi, s, MIN_BLOCK_SIZE_WORDS) && FreeStretch(m, epi, s, b, e)
    ensures b in s && e in s + {epi} && FIRST <= b < e <= epi < |m| && (e - b) % 4 == 0 && Used(m, b - 1) && Used(m, e)
    ensures b in Joined(s, b, e)
    ensures Outside(UsedBlocks(m, s), b, e) == UsedBlocks(m, s)
    ensures (set c | c in UsedBlocks(m, s) && !(b <= c < e)) == UsedBlocks(m, s)
  {
    hide Tiled, UsedBlocks, Outside;
    BlockExtent(m, epi, s, MIN_BLOCK_SIZE_WORDS, b);
    if e != epi { BlockExtent(m, epi, s, MIN_BLOCK_SIZE_WORDS, e); }
    EpilogueAligned(m, epi, s);
    NoneUsedInside(m, s, b, e);
    StartJoined(s, b, e);
  }

  lemma EpilogueAligned(m: seq<Word>, epi: nat, s: set<nat>)
    requires Tiled(m, epi, s, MIN_BLOCK_SIZE_WORDS)
    ensures FIRST <= epi < |m| && epi % 4 == 3
  {
  }

  lemma StartJoined(s: set<nat>, b: nat, e: nat)
    requires b in s
    ensures b in Joined(s, b, e)
  {
  }

  lemma NoneUsedInside(m: seq<Word>, s: set<nat>, b: nat, e: nat)
    requires forall c :: c in s && b <= c < e ==> c < |m| && !Used(m, c)
    ensures Outside(UsedBlocks(m, s), b, e) == UsedBlocks(m, s)
    ensures (set c | c in UsedBlocks(m, s) && !(b <= c < e)) == UsedBlocks(m, s)
  {
  }

  // Tagging k words at the start of the free block b used, and the rest free.
  lemma AfterSplit(m: seq<Word>, epi: nat, s: set<nat>, b: nat, k: nat)
    requires HeapState(m, epi, s, {}) && b in s && b < |m| && !Used(m, b) && Size(m, b) < 0x4000_0000
    requires MIN_BLOCK_SIZE_WORDS <= k && k % 4 == 0 && k + MIN_BLOCK_SIZE_WORDS <= Size(m, b)
    ensures FIRST <= b && b + Size(m, b) <= epi < |m|
    ensures
      var m' := Tagged(Tagged(m, b, k, true), b + k, Size(m, b) - k, false);
      && HeapState(m', epi, s + {b + k}, {}) && UsedBlocks(m', s + {b + k}) == UsedBlocks(m, s) + {b}
      && Keeps(m, m', UsedBlocks(m, s))
  {
    hide Tiled, Coalesced, Tagged, SplitsTags, UsedBlocks, Keeps;
    BlockExtent(m, epi, s, MIN_BLOCK_SIZE_WORDS, b);
    FreeBlockAfter(m, epi, s, MIN_BLOCK_SIZE_WORDS, {}, b);
    TaggedEnds(m, b, k, true);
    var m1 := Tagged(m, b, k, true);
    var m', rest := Tagged(m1, b + k, Size(m, b) - k, false), b + k;
    TaggedSplits(m, epi, s, MIN_BLOCK_SIZE_WORDS, b, k);
    SplitTiles(m, m', epi, s, MIN_BLOCK_SIZE_WORDS, b, k);
    SplitCoalesced(m, m', epi, s, MIN_BLOCK_SIZE_WORDS, {}, b, k);
    SplitUsed(m, m', epi, s, MIN_BLOCK_SIZE_WORDS, b, k);
    assert PendingSplit({}, b, k, true, false) == {rest} && {rest} - {rest} == {};
    TaggedWords(m, b, k, true, b + Size(m, b));
    TaggedWords(m1, rest, Size(m, b) - k, false, rest - 1);
    TaggedWords(m1, rest, Size(m, b) - k, false, b + Size(m, b));
    SettledCoalesced(m', epi, s + {rest}, MIN_BLOCK_SIZE_WORDS, {rest}, rest);
  }

  lemma TaggedEnds(m: seq<Word>, b: nat, size: nat, used: bool)
    requires 0 < size < 0x4000_0000 && b + size <= |m|
    ensures var m' := Tagged(m, b, size, used);
      |m'| == |m| && m'[b] == m'[b + size - 1] == Pack(used, size)
  {
  }

  // Tagging all of the free block b used.
  lemma AfterTake(m: seq<Word>, epi: nat, s: set<nat>, b: nat)
    requires HeapState(m, epi, s, {}) && b in s && b < |m| && !Used(m, b) && Size(m, b) < 0x4000_0000
    requires epi < HEAP_MAX
    ensures 0 < Size(m, b) && b + Size(m, b) <= epi < |m|
    ensures
      var m' := Tagged(m, b, Size(m, b), true);
      && HeapState(m', epi, s, {}) && UsedBlocks(m', s) == UsedBlocks(m, s) + {b} && Keeps(m, m', UsedBlocks(m, s))
  {
    BlockExtent(m, epi, s, MIN_BLOCK_SIZE_WORDS, b);
    JoinOfOne(m, epi, s, MIN_BLOCK_SIZE_WORDS, b);
    hide Tiled, Coalesced, Tagged, JoinsTags;
    var e := b + Size(m, b);
    var m' := Tagged(m, b, Size(m, b), true);
    TaggedJoins(m, epi, s, MIN_BLOCK_SIZE_WORDS, b, e, true);
    JoinTiles(m, m', epi, s, MIN_BLOCK_SIZE_WORDS, b, e);
    JoinedCoalesced(m, m', epi, s, MIN_BLOCK_SIZE_WORDS, {}, b, e);
    JoinedUsed(m, m', epi, s, MIN_BLOCK_SIZE_WORDS, b, e);
    assert PendingJoined({}, b, e, true) == {};
    NoneUsedInside(m, s, b, e);
  }

  // Tagging the used block b free.
  lemma AfterFree(m: seq<Word>, epi: nat, s: set<nat>, b: nat)
    requires HeapState(m, epi, s, {}) && b in s && b < |m| && Used(m, b)
    requires epi < HEAP_MAX
    ensures 0 < Size(m, b) < 0x4000_0000 && b + Size(m, b) <= epi < |m|
    ensures
      var m' := Tagged(m, b, Size(m, b), false);
      && HeapState(m', epi, s, {b}) && UsedBlocks(m', s) == UsedBlocks(m, s) - {b}
      && Keeps(m, m', UsedBlocks(m, s) - {b}) && m'[b] == Pack(false, Size(m, b))
  {
    BlockExtent(m, epi, s, MIN_BLOCK_SIZE_WORDS, b);
    JoinOfOne(m, epi, s, MIN_BLOCK_SIZE_WORDS, b);
    hide Tiled, Coalesced, Tagged, JoinsTags;
    var e := b + Size(m, b);
    var m' := Tagged(m, b, Size(m, b), false);
    TaggedEnds(m, b, Size(m, b), false);
    TaggedJoins(m, epi, s, MIN_BLOCK_SIZE_WORDS, b, e, false);
    JoinTiles(m, m', epi, s, MIN_BLOCK_SIZE_WORDS, b, e);
    JoinedCoalesced(m, m', epi, s, MIN_BLOCK_SIZE_WORDS, {}, b, e);
    JoinedUsed(m, m', epi, s, MIN_BLOCK_SIZE_WORDS, b, e);
    JoinOfOneState(m, s, b, e);
    assert Outside(UsedBlocks(m, s), b, e) == (set c | c in UsedBlocks(m, s) && !(b <= c < e));
  }

  // A new free block over the old epilogue, with a new epilogue after it.
  lemma AfterExtend(m: seq<Word>, epi: nat, s: set<nat>, k: nat)
    requires HeapState(m, epi, s, {}) && epi + k < |m| && MIN_BLOCK_SIZE_WORDS <= k < 0x4000_0000 && k % 4 == 0
    ensures
      var m' := Tagged(m, epi, k, false)[epi + k := FENCE];
      && HeapState(m', epi + k, s + {epi}, {epi}) && UsedBlocks(m', s + {epi}) == UsedBlocks(m, s)
      && Keeps(m, m', UsedBlocks(m, s)) && m'[epi] == Pack(false, k)
  {
    var m' := Tagged(m, epi, k, false)[epi + k := FENCE];
    hide Tiled, Coalesced, ExtendsTags;
    TaggedExtends(m, epi, s, MIN_BLOCK_SIZE_WORDS, k);
    ExtendTiles(m, m', epi, s, MIN_BLOCK_SIZE_WORDS, k);
    ExtendCoalesced(m, m', epi, s, MIN_BLOCK_SIZE_WORDS, {}, k);
    assert {} + {epi} == {epi};
  }

  // Writing the payload of a used block leaves the heap and the other used blocks as they are.
  lemma AfterWrite(m: seq<Word>, m': seq<Word>, epi: nat, s: set<nat>, b: nat, lo: nat, hi: nat)
    requires HeapState(m, epi, s, {}) && b in s && b < |m| && b < lo && hi < b + Size(m, b)
    requires SameOutside(m, m', lo, hi)
    ensures HeapState(m', epi, s, {}) && UsedBlocks(m', s) == UsedBlocks(m, s)
    ensures Keeps(m, m', UsedBlocks(m, s) - {b}) && m'[b] == m[b]
  {
    hide Tiled, SameOutside, TagsAgree, KeepsBlock, NotBothFree;
    forall c | c in s ensures TagsAgree(m, m', c) && (c != b ==> KeepsBlock(m, m', c)) {
      PayloadOutside(m, m', epi, s, MIN_BLOCK_SIZE_WORDS, b, lo, hi, c);
    }
    SameLength(m, m', epi, s, b, lo, hi);
    TagsTile(m, m', epi, s, MIN_BLOCK_SIZE_WORDS);
    forall c | c in s ensures c < |m| && m'[c] == m[c] && NotBothFree(m', s, {}, c) {
      SameHeader(m, m', epi, s, c);
    }
  }

  lemma SameLength(m: seq<Word>, m': seq<Word>, epi: nat, s: set<nat>, b: nat, lo: nat, hi: nat)
    requires Tiled(m, epi, s, MIN_BLOCK_SIZE_WORDS) && b in s && b < |m|
    requires b < lo && hi < b + Size(m, b) && SameOutside(m, m', lo, hi)
    ensures |m'| == |m| && FIRST <= epi < |m| && m'[epi] == m[epi] && m'[FIRST - 1] == m[FIRST - 1]
  {
    BlockExtent(m, epi, s, MIN_BLOCK_SIZE_WORDS, b);
  }

  lemma SameHeader(m: seq<Word>, m': seq<Word>, epi: nat, s: set<nat>, c: nat)
    requires HeapState(m, epi, s, {}) && c in s && |m'| == |m| && forall d :: d in s ==> TagsAgree(m, m', d)
    ensures c < |m| && m'[c] == m[c] && NotBothFree(m', s, {}, c)
  {
    assert TagsAgree(m, m', c) && NotBothFree(m, s, {}, c);
    if c + Size(m, c) in s { assert TagsAgree(m, m', c + Size(m, c)); }
  }

  lemma Disjoint(m: seq<Word>, epi: nat, s: set<nat>, b: nat, c: nat)
    requires HeapState(m, epi, s, {}) && b in s && c in s && b != c
    ensures b < |m| && c < |m| && (b + Size(m, b) <= c || c + Size(m, c) <= b)
  {
    BlocksDisjoint(m, epi, s, MIN_BLOCK_SIZE_WORDS, b, c);
  }

  // ----- find_fit -----

  ghost predicate Fits(m: seq<Word>, b: nat, words: nat) { b < |m| && !Used(m, b) && words <= Size(m, b) }

  // b is the lowest free block of s with as many words, 0 if there is none.
  ghost predicate IsFirstFit(m: seq<Word>, s: set<nat>, words: nat, b: nat) {
    && (b != 0 ==> b in s && Fits(m, b, words))
    && forall c :: c in s && Fits(m, c, words) ==> b != 0 && b <= c
  }

  // ----- copying bytes -----

  lemma WordsFit(k: nat, size: nat)
    requires k + 2 * WSIZE <= size * WSIZE
    ensures WordsFor(k) + 2 <= size
  {
  }

  function Min(x: nat, y: nat): nat { if x < y then x else y }

  class Allocator {
    const mem: array<Word>
    var brk: nat
    ghost var blocks: set<nat>
    ghost var live: map<nat, nat>  // the bytes asked for of each payload in use

    constructor ()
      ensures mem.Length == HEAP_MAX && brk == HEAP_LO && fresh(mem)
    {
      mem := new Word[HEAP_MAX];
      brk := HEAP_LO;
      blocks, live := {}, map[];
    }

    ghost predicate State(x: set<nat>)
      reads this, mem
    {
      mem.Length == HEAP_MAX && FIRST < brk <= HEAP_MAX && HeapState(mem[..], brk - 1, blocks, x)
    }

    ghost predicate Valid()
      reads this, mem
    {
      State({}) && LiveMatches(mem[..], UsedNow(), live)
    }

    ghost function UsedNow(): set<nat> reads this, mem { UsedBlocks(mem[..], blocks) }

    predicate BlkFree(b: nat) requires b < mem.Length reads mem { mem[b] % 2 == 0 }

    function BlkSize(b: nat): nat requires b < mem.Length reads mem { mem[b] / 2 }

    function NextBlk(b: nat): nat requires b < mem.Length reads mem { b + mem[b] / 2 }

    function PrevBlk(b: nat): nat
      requires 0 < b <= mem.Length && mem[b - 1] / 2 <= b
      reads mem
    {
      b - mem[b - 1] / 2
    }

    method SetHeaderAndFooter(b: nat, size: nat, used: bool)
      requires 0 < size < 0x4000_0000 && b + size <= mem.Length
      modifies mem
      ensures mem[..] == Tagged(old(mem[..]), b, size, used)
    {
      mem[b] := Pack(used, size);
      mem[b + mem[b] / 2 - 1] := mem[b];
    }

    // Tags as one free block what is free from b on, around the pending block bp.
    method Merge(b: nat, size: nat, ghost bp: nat)
      requires State({bp}) && FreeStretch(mem[..], brk - 1, blocks, b, b + size) && b <= bp < b + size
      modifies mem, this`blocks
      ensures State({}) && UsedNow() == old(UsedNow()) && Keeps(old(mem[..]), mem[..], old(UsedNow()))
      ensures blocks == Joined(old(blocks), b, b + size) && b in blocks && BlkSize(b) == size && BlkFree(b)
      ensures b < bp - 1 ==> mem[bp - 1] == old(mem[bp - 1])
      ensures FIRST <= b
    {
      AfterMerge(mem[..], brk - 1, blocks, bp, b, b + size);
      hide HeapState, Keeps, UsedBlocks;
      SetHeaderAndFooter(b, size, false);
      assert b in Joined(blocks, b, b + size);
      blocks := Joined(blocks, b, b + size);
    }

    // coalesce: joins the pending block bp with its free neighbours.
    method Coalesce(bp: nat) returns (r: nat)
      requires State({bp}) && bp in blocks && bp < mem.Length && BlkFree(bp)
      modifies mem, this`blocks
      ensures State({}) && UsedNow() == old(UsedNow()) && Keeps(old(mem[..]), mem[..], old(UsedNow()))
      ensures r in blocks && FIRST <= r <= bp && r < mem.Length && BlkFree(r) && bp + old(BlkSize(bp)) <= r + BlkSize(r)
      ensures blocks == Joined(old(blocks), r, r + BlkSize(r))
    {
      hide HeapState, Keeps, UsedBlocks, Joined, FreeStretch;
      Around(mem[..], brk - 1, blocks, bp);
      var prevAlloc, nextAlloc := mem[bp - 1] % 2 == 1, !BlkFree(NextBlk(bp));
      var size := BlkSize(bp);
      if prevAlloc && nextAlloc {
        Alone(mem[..], brk - 1, blocks, bp);
        r := bp;
      } else if prevAlloc && !nextAlloc {
        Merge(bp, size + BlkSize(NextBlk(bp)), bp);
        r := bp;
      } else if !prevAlloc && nextAlloc {
        r := PrevBlk(bp);
        Merge(r, size + BlkSize(r), bp);
      } else {
        Merge(PrevBlk(bp), size + BlkSize(NextBlk(bp)) + BlkSize(PrevBlk(bp)), bp);
        r := PrevBlk(bp);
      }
    }

    // place: asize words of the free block bp become a used block; a remainder that can be one stays free.
    method Place(bp: nat, asize: nat)
      requires State({}) && bp in blocks && bp < mem.Length && BlkFree(bp)
      requires MIN_BLOCK_SIZE_WORDS <= asize <= BlkSize(bp) && asize % 4 == 0
      modifies mem, this`blocks
      ensures State({}) && UsedNow() == old(UsedNow()) + {bp} && Keeps(old(mem[..]), mem[..], old(UsedNow()))
      ensures
        var rest := old(BlkSize(bp)) - asize;
        if rest >= MIN_BLOCK_SIZE_WORDS
        then BlkSize(bp) == asize && blocks == old(blocks) + {bp + asize}
        else BlkSize(bp) == asize + rest && blocks == old(blocks)
    {
      var csize := BlkSize(bp);
      BlockExtent(mem[..], brk - 1, blocks, MIN_BLOCK_SIZE_WORDS, bp);
      hide HeapState, Keeps, UsedBlocks;
      if csize - asize >= MIN_BLOCK_SIZE_WORDS {
        PlaceSplit(bp, asize);
      } else {
        AfterTake(mem[..], brk - 1, blocks, bp);
        SetHeaderAndFooter(bp, csize, true);
      }
    }

    method PlaceSplit(bp: nat, asize: nat)
      requires State({}) && bp in blocks && bp < mem.Length && BlkFree(bp)
      requires MIN_BLOCK_SIZE_WORDS <= asize && asize + MIN_BLOCK_SIZE_WORDS <= BlkSize(bp) < 0x4000_0000
      requires asize % 4 == 0
      modifies mem, this`blocks
      ensures State({}) && UsedNow() == old(UsedNow()) + {bp} && Keeps(old(mem[..]), mem[..], old(UsedNow()))
      ensures BlkSize(bp) == asize && blocks == old(blocks) + {bp + asize}
    {
      hide HeapState, Keeps, UsedBlocks, Tagged;
      var csize := BlkSize(bp);
      AfterSplit(mem[..], brk - 1, blocks, bp, asize);
      TaggedEnds(mem[..], bp, asize, true);
      SetHeaderAndFooter(bp, asize, true);
      var rest := NextBlk(bp);
      TaggedWords(mem[..], rest, csize - asize, false, bp);
      SetHeaderAndFooter(rest, csize - asize, false);
      blocks := blocks + {rest};
    }

    // find_fit: the lowest free block that is large enough, 0 for NULL.
    method FindFit(asize: nat) returns (b: nat)
      requires State({})
      ensures IsFirstFit(mem[..], blocks, asize, b)
    {
      ghost var m := mem[..];
      SizesPositive(m, brk - 1, blocks, MIN_BLOCK_SIZE_WORDS);
      var bp := FIRST;
      while BlkSize(bp) > 0
        invariant bp in blocks + {brk - 1} && FIRST <= bp < brk
        invariant forall c :: c in blocks && Fits(m, c, asize) ==> bp <= c
        decreases brk - bp
      {
        if BlkFree(bp) && asize <= BlkSize(bp) {
          return bp;
        }
        assert bp in blocks;
        BlockExtent(m, brk - 1, blocks, MIN_BLOCK_SIZE_WORDS, bp);
        bp := NextBlk(bp);
      }
      return 0;
    }

    // mem_sbrk, given a byte count that is a multiple of the word size: where the new words start, 0 for NULL.
    method MemSbrk(incr: int) returns (p: nat)
      requires incr % WSIZE == 0 && 0 < brk <= HEAP_MAX
      modifies this`brk
      ensures p == 0 ==> brk == old(brk)
      ensures p == 0 <==> incr < 0 || old(brk) + incr / WSIZE > HEAP_MAX
      ensures p != 0 ==> p == old(brk) && brk == old(brk) + incr / WSIZE
    {
      if incr < 0 || brk + incr / WSIZE > HEAP_MAX {
        return 0;
      }
      p := brk;
      brk := brk + incr / WSIZE;
    }

    // The heap cannot be made larger by this many words.
    ghost predicate CannotExtend(words: nat)
      reads this
    {
      brk + words > HEAP_MAX || words * WSIZE > INT_MAX
    }

    // extend_heap: the new free block, joined with the one before it if that is free; 0 for NULL.
    method ExtendHeap(words: nat) returns (r: nat)
      requires State({}) && MIN_BLOCK_SIZE_WORDS <= words && words % 4 == 0 && !GetsLess(brk, words)
      modifies this`brk, mem, this`blocks
      ensures r == 0 <==> old(CannotExtend(words))
      ensures r == 0 ==> mem[..] == old(mem[..]) && brk == old(brk) && blocks == old(blocks)
      ensures State({})
      ensures r != 0 ==>
        && brk == old(brk) + words && r in blocks && r < old(brk) && BlkFree(r) && words <= BlkSize(r)
        && UsedNow() == old(UsedNow()) && Keeps(old(mem[..]), mem[..], old(UsedNow()))
    {
      hide HeapState, Keeps, UsedBlocks, Joined, ToInt, GetsLess;
      ghost var m, u := mem[..], UsedNow();
      SbrkServes(brk, words);
      var bp := MemSbrk(ToInt(words * WSIZE));
      if bp == 0 {
        return 0;
      }
      var blk := NewBlock(bp, words);
      ghost var m1 := mem[..];
      r := Coalesce(blk);
      KeepsTransitive(m, m1, mem[..], u);
    }

    // The words from bp on, just got, and the epilogue before them become a free block and a new epilogue.
    method NewBlock(bp: nat, words: nat) returns (blk: nat)
      requires mem.Length == HEAP_MAX && FIRST < bp && bp + words == brk <= HEAP_MAX
      requires MIN_BLOCK_SIZE_WORDS <= words && words % 4 == 0 && HeapState(mem[..], bp - 1, blocks, {})
      modifies mem, this`blocks
      ensures State({blk}) && blk == bp - 1 && blocks == old(blocks) + {blk}
      ensures UsedNow() == old(UsedNow()) && Keeps(old(mem[..]), mem[..], old(UsedNow()))
      ensures BlkSize(blk) == words && BlkFree(blk)
    {
      ghost var m := mem[..];
      AfterExtend(m, bp - 1, blocks, words);
      hide HeapState, Keeps, UsedBlocks;
      blk := bp - 1;
      SetHeaderAndFooter(blk, words, false);
      mem[NextBlk(blk)] := FENCE;
      blocks := blocks + {blk};
      assert mem[..] == Tagged(m, bp - 1, words, false)[bp - 1 + words := FENCE];
    }

    // mm_init on an empty heap.
    method MmInit() returns (rc: int)
      requires mem.Length == HEAP_MAX && brk == HEAP_LO
      modifies this, mem
      ensures rc == 0 && Valid() && live == map[] && brk == FIRST + 1 + CHUNKSIZE
    {
      var initial := MemSbrk(4 * WSIZE);
      if initial == 0 {
        return -1;
      }
      mem[initial + 2] := FENCE;
      mem[initial + 3] := FENCE;
      blocks, live := {}, map[];
      assert UsedNow() == {};
      var bp := ExtendHeap(CHUNKSIZE);
      if bp == 0 {
        return -1;
      }
      return 0;
    }

    ghost predicate Unchanged(m: seq<Word>, b: nat, s: set<nat>, v: map<nat, nat>)
      reads this, mem
    {
      mem[..] == m && brk == b && blocks == s && live == v
    }

    // No free block has as many words, and there are no more to get.
    ghost predicate OutOfMemory(size: nat)
      reads this, mem
    {
      && (forall c :: c in blocks ==> !Fits(mem[..], c, BlockWords(size)))
      && CannotExtend(Max(BlockWords(size), CHUNKSIZE))
    }

    // place for a request of size bytes, which is live from then on.
    method PlaceLive(bp: nat, awords: nat, ghost size: nat)
      requires Valid() && bp in blocks && bp < mem.Length && BlkFree(bp)
      requires 0 < size < SIZE_VALUES && !Overflows(size) && awords == BlockWords(size) <= BlkSize(bp)
      modifies mem, this`blocks, this`live
      ensures Valid() && bp + 1 !in old(live) && live == old(live)[bp + 1 := size] && bp in blocks
      ensures UsedNow() == old(UsedNow()) + {bp} && Keeps(old(mem[..]), mem[..], old(UsedNow()))
      ensures awords <= BlkSize(bp) < awords + MIN_BLOCK_SIZE_WORDS
    {
      assert bp !in UsedNow();
      ghost var m, u := mem[..], UsedNow();
      hide HeapState, Keeps, UsedBlocks, LiveMatches, Overflows, BlockWords;
      BlockWordsSuffice(size);
      Place(bp, awords);
      LiveWith(m, mem[..], u, live, bp, size);
      live := live[bp + 1 := size];
    }

    // mm_malloc when no block fits: gets more memory and places the block there.
    method ExtendAndPlace(awords: nat, ghost size: nat) returns (p: nat)
      requires Valid() && 0 < size < SIZE_VALUES && !Overflows(size) && awords == BlockWords(size)
      requires !GetsLess(brk, Max(awords, CHUNKSIZE))
      modifies this, mem
      ensures Valid() && (p == 0 <==> old(CannotExtend(Max(awords, CHUNKSIZE))))
      ensures p == 0 ==> Unchanged(old(mem[..]), old(brk), old(blocks), old(live)) && UsedNow() == old(UsedNow())
      ensures p != 0 ==> p !in old(live) && live == old(live)[p := size] && 0 < p <= mem.Length && p <= old(brk)
      ensures p != 0 ==> p - 1 in blocks && awords <= BlkSize(p - 1) < awords + MIN_BLOCK_SIZE_WORDS
      ensures p != 0 ==> brk == old(brk) + Max(awords, CHUNKSIZE) && UsedNow() == old(UsedNow()) + {p - 1}
      ensures Keeps(old(mem[..]), mem[..], old(UsedNow()))
    {
      hide HeapState, Keeps, UsedBlocks, LiveMatches, GetsLess, Overflows, BlockWords, SamePayloads;
      ghost var m, u := mem[..], UsedNow();
      NothingFreed(m, brk - 1, blocks, live);
      var extendwords := Max(awords, CHUNKSIZE);
      var bp := ExtendHeap(extendwords);
      if bp == 0 {
        return 0;
      }
      ghost var m1 := mem[..];
      StillLive(m, m1, u, live);
      PlaceLive(bp, awords, size);
      KeepsTransitive(m, m1, mem[..], u);
      return bp + 1;
    }

    // mm_malloc: the address of size bytes, 0 for NULL.
    method MmMalloc(size: nat) returns (p: nat)
      requires Valid() && size < SIZE_VALUES
      requires !Overflows(size) ==> !GetsLess(brk, Max(BlockWords(size), CHUNKSIZE))
      modifies this, mem
      ensures Valid()
      ensures p == 0 <==> size == 0 || Overflows(size) || old(OutOfMemory(size))
      ensures p == 0 ==> Unchanged(old(mem[..]), old(brk), old(blocks), old(live)) && UsedNow() == old(UsedNow())
      ensures p != 0 ==> p !in old(live) && live == old(live)[p := size] && 0 < p <= mem.Length
      ensures p != 0 ==> p - 1 in blocks && BlockWords(size) <= BlkSize(p - 1) < BlockWords(size) + MIN_BLOCK_SIZE_WORDS
      ensures p != 0 && brk == old(brk) ==> IsFirstFit(old(mem[..]), old(blocks), BlockWords(size), p - 1)
      ensures p != 0 && brk != old(brk) ==>
        && IsFirstFit(old(mem[..]), old(blocks), BlockWords(size), 0)
        && brk == old(brk) + Max(BlockWords(size), CHUNKSIZE) && p <= old(brk)
      ensures p != 0 ==> UsedNow() == old(UsedNow()) + {p - 1}
      ensures Keeps(old(mem[..]), mem[..], old(UsedNow()))
    {
      hide HeapState, Keeps, UsedBlocks, LiveMatches, Align, ToInt, GetsLess, CannotExtend, SamePayloads;
      NothingFreed(mem[..], brk - 1, blocks, live);
      if size == 0 {
        return 0;
      }
      var bsize := Align((size + 2 * WSIZE) % SIZE_VALUES);
      if bsize < size {
        return 0;
      }
      var awords := Max(MIN_BLOCK_SIZE_WORDS, bsize / WSIZE);
      assert awords == BlockWords(size);
      hide Overflows, BlockWords, BlockBytes;
      var bp := FindFit(awords);
      if bp != 0 {
        PlaceLive(bp, awords, size);
        return bp + 1;
      }
      p := ExtendAndPlace(awords, size);
    }

    // What is known of an empty change, and of a payload in use, before anything is freed.
    lemma NothingFreed(m: seq<Word>, epi: nat, s: set<nat>, v: map<nat, nat>)
      requires HeapState(m, epi, s, {}) && LiveMatches(m, UsedBlocks(m, s), v)
      ensures (forall u :: u <= UsedBlocks(m, s) ==> Keeps(m, m, u)) && SamePayloads(m, m, v.Keys) && 0 !in v
    {
      KeepsSelf(m, epi, s, MIN_BLOCK_SIZE_WORDS);
      KeepsLive(m, m, UsedBlocks(m, s), v);
      InPayloads(UsedBlocks(m, s), 0);
    }

    lemma PayloadInUse(m: seq<Word>, s: set<nat>, v: map<nat, nat>, p: nat)
      requires LiveMatches(m, UsedBlocks(m, s), v) && p in v
      ensures 0 < p && p - 1 in UsedBlocks(m, s) && p - 1 in s && p - 1 < |m| && Used(m, p - 1)
    {
      InPayloads(UsedBlocks(m, s), p);
    }

    // mm_free
    method MmFree(p: nat)
      requires Valid() && (p == 0 || p in live)
      modifies mem, this`blocks, this`live
      ensures Valid() && live == old(live) - {p} && Keeps(old(mem[..]), mem[..], old(UsedNow()) - {p - 1})
      ensures SamePayloads(old(mem[..]), mem[..], old(live.Keys) - {p})
      ensures p == 0 ==> Unchanged(old(mem[..]), old(brk), old(blocks), old(live))
    {
      hide HeapState, Keeps, UsedBlocks, LiveMatches, Tagged, SamePayloads, Payloads;
      ghost var m, u := mem[..], UsedNow();
      if p == 0 {
        NothingFreed(m, brk - 1, blocks, live);
        return;
      }
      PayloadInUse(m, blocks, live, p);
      var blk := p - 1;
      AfterFree(m, brk - 1, blocks, blk);
      SetHeaderAndFooter(blk, BlkSize(blk), false);
      ghost var m1 := mem[..];
      var _ := Coalesce(blk);
      KeepsTransitive(m, m1, mem[..], u - {blk});
      LiveWithout(m, mem[..], u, live, blk);
      live := live - {p};
    }

    // The payload and size of a block in use.
    lemma LiveBlock(p: nat)
      requires Valid() && p in live
      ensures 0 < p && p - 1 in UsedNow() && p - 1 in blocks && p - 1 < mem.Length && NextBlk(p - 1) < brk
      ensures MIN_BLOCK_SIZE_WORDS <= BlkSize(p - 1) && live[p] + 2 * WSIZE <= BlkSize(p - 1) * WSIZE
    {
      InPayloads(UsedNow(), p);
      BlockExtent(mem[..], brk - 1, blocks, MIN_BLOCK_SIZE_WORDS, p - 1);
    }

    // memcpy of k bytes from p to q
    method MemCpy(q: nat, p: nat, k: nat)
      requires p + WordsFor(k) <= q || q + WordsFor(k) <= p
      requires p + WordsFor(k) <= mem.Length && q + WordsFor(k) <= mem.Length
      modifies mem
      ensures BytesCopied(old(mem[..]), mem[..], p, q, k)
      ensures SameOutside(old(mem[..]), mem[..], q, q + WordsFor(k))
    {
      ghost var m := mem[..];
      var j := 0;
      while j < k
        invariant 0 <= j <= k && SameOutside(m, mem[..], q, q + WordsFor(k))
        invariant forall i :: 0 <= i < j ==> ByteAt(mem[..], q, i) == ByteAt(m, p, i)
      {
        assert mem[p + j / BYTES_IN_WORD] == m[p + j / BYTES_IN_WORD];
        SetByteAt(mem, q, j, ByteAt(mem[..], p, j));
        j := j + 1;
      }
    }

    // mm_realloc: the new address of the payload at ptr, which then has size bytes; 0 for NULL.
    method MmRealloc(ptr: nat, size: nat) returns (r: nat)
      requires Valid() && size < SIZE_VALUES && (ptr == 0 || ptr in live)
      requires !Overflows(size) ==> !GetsLess(brk, Max(BlockWords(size), CHUNKSIZE))
      modifies this, mem
      ensures Valid()
      ensures r == 0 <==> size == 0 || Overflows(size) || old(OutOfMemory(size))
      ensures size == 0 ==> live == old(live) - {ptr} && SamePayloads(old(mem[..]), mem[..], old(live.Keys) - {ptr})
      ensures size != 0 && r == 0 ==> Unchanged(old(mem[..]), old(brk), old(blocks), old(live))
      ensures r != 0 ==>
        && r !in old(live) && live == (old(live) - {ptr})[r := size]
        && SamePayloads(old(mem[..]), mem[..], old(live.Keys) - {ptr})
      ensures r != 0 && ptr != 0 ==>
        0 < ptr <= |old(mem[..])| && 2 <= old(BlkSize(ptr - 1)) &&
        BytesCopied(old(mem[..]), mem[..], ptr, r, Min(size, old(BlkSize(ptr - 1)) * WSIZE - 2 * WSIZE))
    {
      hide Valid, HeapState, Keeps, UsedBlocks, LiveMatches, SamePayloads, OutOfMemory, Overflows, BlockWords, GetsLess,
           BytesCopied, CannotExtend, IsFirstFit;
      ghost var m, u, v := mem[..], UsedNow(), live;
      NotNull();
      if size == 0 {
        MmFree(ptr);
        return 0;
      }
      r := MmMalloc(size);
      KeepsLive(m, mem[..], u, v);
      if r == 0 || ptr == 0 {
        return;
      }
      MoveTo(r, ptr, size, m, u, v);
    }

    lemma NotNull()
      requires Valid()
      ensures 0 !in live && live - {0} == live && live.Keys - {0} == live.Keys && LiveMatches(mem[..], UsedNow(), live)
      ensures mem.Length == HEAP_MAX
      ensures forall p :: p in live ==> 0 < p <= mem.Length && 2 <= BlkSize(p - 1)
    {
      forall p | p in live ensures 0 < p <= mem.Length && 2 <= BlkSize(p - 1) {
        LiveBlock(p);
      }
    }

    // Copies k bytes between two payloads.
    method CopyPayload(q: nat, p: nat, k: nat)
      requires Valid() && p in live && q in live && p != q && 0 < p <= mem.Length && 0 < q <= mem.Length
      requires k + 2 * WSIZE <= BlkSize(p - 1) * WSIZE && k + 2 * WSIZE <= BlkSize(q - 1) * WSIZE
      modifies mem
      ensures Valid() && UsedNow() == old(UsedNow()) && Keeps(old(mem[..]), mem[..], UsedNow() - {q - 1})
      ensures BytesCopied(old(mem[..]), mem[..], p, q, k) && mem[q - 1] == old(mem[q - 1])
    {
      hide HeapState, Keeps, UsedBlocks, LiveMatches, BytesCopied, SameOutside, WordsFor;
      ghost var m, epi, u := mem[..], brk - 1, UsedNow();
      LiveBlock(p);
      LiveBlock(q);
      Disjoint(m, epi, blocks, p - 1, q - 1);
      WordsFit(k, BlkSize(p - 1));
      WordsFit(k, BlkSize(q - 1));
      MemCpy(q, p, k);
      AfterWrite(m, mem[..], epi, blocks, q - 1, q, q + WordsFor(k));
      StillLiveBut(m, mem[..], u, live, q - 1);
    }

    // The end of mm_realloc: copies the old payload to the new and frees the old.
    method MoveTo(newptr: nat, ptr: nat, size: nat, ghost m: seq<Word>, ghost u: set<nat>, ghost v: map<nat, nat>)
      requires Valid() && ptr in v && newptr !in v && live == v[newptr := size] && LiveMatches(m, u, v)
      requires 0 < newptr && UsedNow() == u + {newptr - 1} && Keeps(m, mem[..], u)
      modifies mem, this`blocks, this`live
      ensures Valid() && live == (v - {ptr})[newptr := size] && SamePayloads(m, mem[..], v.Keys - {ptr})
      ensures 0 < ptr <= |m| && 2 <= Size(m, ptr - 1)
      ensures BytesCopied(m, mem[..], ptr, newptr, Min(size, Size(m, ptr - 1) * WSIZE - 2 * WSIZE))
    {
      hide HeapState, Keeps, UsedBlocks, LiveMatches, BytesCopied, SameOutside, SamePayloads;
      ghost var m1 := mem[..];
      LiveBlock(ptr);
      LiveBlock(newptr);
      OldPayload(m, m1, u, v, ptr, newptr);
      var oldpayloadsize := BlkSize(ptr - 1) * WSIZE - 2 * WSIZE;
      if size < oldpayloadsize {
        oldpayloadsize := size;
      }
      CopyPayload(newptr, ptr, oldpayloadsize);
      ghost var m2 := mem[..];
      MmFree(ptr);
      AfterMove(m, m1, m2, mem[..], u, ptr, newptr, oldpayloadsize);
      KeepsOthers(m, mem[..], u, v, ptr - 1);
    }

    lemma OldPayload(m: seq<Word>, m': seq<Word>, u: set<nat>, v: map<nat, nat>, ptr: nat, newptr: nat)
      requires LiveMatches(m, u, v) && Keeps(m, m', u) && ptr in v && newptr !in v && 0 < newptr
      ensures 0 < ptr <= |m| == |m'| && m'[ptr - 1] == m[ptr - 1] && ptr - 1 in u && newptr - 1 !in u
    {
      InPayloads(u, ptr);
      InPayloads(u, newptr);
      KeptBlock(m, m', u, ptr - 1);
    }

    // From before the allocation to after the freeing.
    lemma AfterMove(m: seq<Word>, m1: seq<Word>, m2: seq<Word>, m': seq<Word>, u: set<nat>, ptr: nat, newptr: nat,
                    k: nat)
      requires 0 < ptr && 0 < newptr && ptr - 1 in u && newptr - 1 !in u
      requires Keeps(m, m1, u) && Keeps(m1, m2, u + {newptr - 1} - {newptr - 1})
      requires Keeps(m2, m', u + {newptr - 1} - {ptr - 1})
      requires ptr <= |m1| && newptr <= |m2|
      requires k + 2 * WSIZE <= Size(m1, ptr - 1) * WSIZE && k + 2 * WSIZE <= Size(m2, newptr - 1) * WSIZE
      requires BytesCopied(m1, m2, ptr, newptr, k)
      ensures Keeps(m, m', u - {ptr - 1}) && BytesCopied(m, m', ptr, newptr, k)
    {
      KeptBlock(m, m1, u, ptr - 1);
      KeptBlock(m2, m', u + {newptr - 1} - {ptr - 1}, newptr - 1);
      hide Keeps;
      KeepsLess(m, m1, u, u - {ptr - 1});
      KeepsLess(m1, m2, u + {newptr - 1} - {newptr - 1}, u - {ptr - 1});
      KeepsLess(m2, m', u + {newptr - 1} - {ptr - 1}, u - {ptr - 1});
      KeepsTransitive(m, m1, m2, u - {ptr - 1});
      KeepsTransitive(m, m2, m', u - {ptr - 1});
      WordsFit(k, Size(m1, ptr - 1));
      WordsFit(k, Size(m2, newptr - 1));
      forall j | 0 <= j < k ensures ByteAt(m', newptr, j) == ByteAt(m, ptr, j) {
        assert ByteAt(m2, newptr, j) == ByteAt(m1, ptr, j);
      }
    }
  }

  // ----- what the contracts add up to -----

  lemma TagsTileHeap(a: Allocator)
    requires a.Valid()
    ensures
      var m, epi := a.mem[..], a.brk - 1;
      && (forall c :: c in Walk(m, FIRST, epi) <==> c in a.blocks)
      && (forall c :: c in a.blocks ==> InOrder(m, epi, MIN_BLOCK_SIZE_WORDS, c))
      && TotalSize(m, Walk(m, FIRST, epi)) == (a.brk - HEAP_LO) - 4
  {
    Walks.TagsTileHeap(a.mem[..], a.brk - 1, a.blocks, MIN_BLOCK_SIZE_WORDS);
  }

  // Payloads in use are aligned to 16 bytes, in the heap, as large as asked for, and do not overlap.
  lemma PayloadsInUse(a: Allocator)
    requires a.Valid()
    ensures forall p :: p in a.live ==>
      && p % 4 == 0 && HEAP_LO <= p && a.live[p] <= WSIZE * |PayloadOf(a.mem[..], p)|
      && p + |PayloadOf(a.mem[..], p)| < a.brk
    ensures forall p, q :: p in a.live && q in a.live && p < q ==> p + |PayloadOf(a.mem[..], p)| < q
  {
    LivePayloads(a.mem[..], a.brk - 1, a.blocks, MIN_BLOCK_SIZE_WORDS, a.live);
  }
}
