/** The allocator of malloclab/mm.c: segregated fits over boundary-tagged blocks. */
module Allocator {
  import opened Memory
  import opened Bytes
  import opened List
  import opened Layout
  import opened Ints
  import opened Requests
  import opened FreeLists
  import opened Blocks
  import opened Heap
  import opened Fit

  const CHUNKSIZE := 32

  function BlockWords(size: nat): (w: nat)
    ensures w >= MIN_BLOCK_SIZE_WORDS && w % 4 == 0
  {
    Max(MIN_BLOCK_SIZE_WORDS, BlockBytes(size) / WSIZE)
  }

  // The smallest block that has both tags and the bytes asked for and keeps the alignment.
  lemma BlockWordsSuffice(size: nat)
    requires size < SIZE_VALUES && !Overflows(size) && 0 < size
    ensures size + 2 * WSIZE <= BlockWords(size) * WSIZE
    ensures BlockWords(size) == MIN_BLOCK_SIZE_WORDS || BlockWords(size) * WSIZE < size + 2 * WSIZE + ALIGNMENT
  {
    hide BlockBytes, Overflows;
    BytesSuffice(size);
    AlignedWords(BlockBytes(size), MIN_BLOCK_SIZE_WORDS);
  }

  class Allocator {
    const mem: array<Word>
    var brk: nat
    ghost var blocks: set<nat>
    ghost var lists: seq<seq<nat>>
    ghost var live: map<nat, nat>  // the bytes asked for of each payload in use

    constructor ()
      ensures mem.Length == HEAP_MAX && brk == HEAP_LO && fresh(mem)
    {
      mem := new Word[HEAP_MAX];
      brk := HEAP_LO;
      blocks, lists, live := {}, [], map[];
    }

    ghost predicate Valid()
      reads this, mem
    {
      State({}) && LiveMatches(mem[..], UsedNow(), live)
    }

    // The heap is in order, but for the blocks in x, which are free and not in a list yet.
    ghost predicate State(x: set<nat>)
      reads this, mem
    {
      && mem.Length == HEAP_MAX && FIRST < brk <= HEAP_MAX
      && HeapState(mem[..], brk - 1, blocks, lists, x)
    }

    ghost function UsedNow(): set<nat> reads this, mem { UsedBlocks(mem[..], blocks) }

    predicate BlkFree(b: nat) requires b < mem.Length reads mem { mem[b] % 2 == 0 }

    function BlkSize(b: nat): nat requires b < mem.Length reads mem { mem[b] / 2 }

    function NextBlk(b: nat): nat requires b < mem.Length reads mem { b + mem[b] / 2 }

    function PrevBlk(b: nat): nat
      requires 0 < b <= mem.Length && mem[b - 1] / 2 <= b
      reads mem
    {
      b - mem[b - 1] / 2
    }

    method SetHeaderAndFooter(b: nat, size: nat, used: bool)
      requires 0 < size < 0x4000_0000 && b + size <= mem.Length
      modifies mem
      ensures mem[..] == Tagged(old(mem[..]), b, size, used)
    {
      mem[b] := Pack(used, size);
      mem[b + mem[b] / 2 - 1] := mem[b];
    }

    // remove_free_block: b is at position k of list i.
    method RemoveFreeBlock(b: nat, ghost i: nat, ghost k: nat)
      requires Links(mem[..], lists) && i < |lists| && k < |lists[i]| && lists[i][k] == b + 2
      modifies mem, this`lists
      ensures lists == old(lists)[i := Without(old(lists)[i], k)]
      ensures Links(mem[..], lists) && LinksTouched(old(mem[..]), mem[..], old(lists))
    {
      ghost var m := mem[..];
      RemoveReady(m, lists, i, k);
      var n := ListRemove(mem, b + 2);
      LinksRemove(m, mem[..], lists, i, k);
      lists := lists[i := Without(lists[i], k)];
    }

    lemma RemoveReady(m: seq<Word>, lists: seq<seq<nat>>, i: nat, k: nat)
      requires Links(m, lists) && i < |lists| && k < |lists[i]|
      ensures
        var c := ChainOf(i, lists[i]);
        var e := lists[i][k];
        && Elem(m, e) && Elem(m, c[k]) && Elem(m, c[k + 2]) && Prev(m, e) == c[k] && Next(m, e) == c[k + 2]
        && Apart(c[k], e) && Apart(e, c[k + 2]) && Apart(c[k], c[k + 2])
    {
      assert ListAt(m, lists, i);
      var c := ChainOf(i, lists[i]);
      assert c[k + 1] == lists[i][k];
      assert Linked(m, c[k], c[k + 1]) && Linked(m, c[k + 1], c[k + 2]);
    }

    // insert_free_block: whether b was put in a list, which it is at the front or at the back.
    method InsertFreeBlock(b: nat) returns (ok: bool)
      requires Links(mem[..], lists) && Mids(mem[..]) && !Listed(lists, b + 2)
      requires FIRST <= b < mem.Length < WORD_VALUES && b % 4 == 3
      requires BlkSize(b) >= MIN_BLOCK_SIZE_WORDS ==> b + MIN_BLOCK_SIZE_WORDS <= mem.Length
      modifies mem, this`lists
      ensures ok == (old(BlkSize(b)) >= MIN_BLOCK_SIZE_WORDS)
      ensures !ok ==> mem[..] == old(mem[..]) && lists == old(lists)
      ensures ok ==>
        var i := FitIndex(old(BlkSize(b)));
        && 0 <= i < |old(lists)|
        && lists == old(lists)[i := if old(BlkSize(b)) < RANGES[i] / 2 then [b + 2] + old(lists)[i]
                                    else old(lists)[i] + [b + 2]]
      ensures ok ==> Links(mem[..], lists) && LinksTouched(old(mem[..]), mem[..], lists)
    {
      hide Links, LinksTouched, Listed, Mids;
      var i := FindFitIndex(BlkSize(b));
      if i < 0 {
        return false;
      }
      MiddleOf(i);
      PushListed(i, BlkSize(b) < mem[MidAt(i)], b + 2);
      ok := true;
    }

    lemma MiddleOf(i: nat)
      requires Links(mem[..], lists) && Mids(mem[..]) && i < FREE_LISTS_SIZE
      ensures |lists| == FREE_LISTS_SIZE && MidAt(i) < mem.Length && mem[MidAt(i)] == RANGES[i] / 2
    {
    }

    // list_push_front or list_push_back on list i.
    method PushListed(i: nat, front: bool, e: nat)
      requires Links(mem[..], lists) && i < |lists| && InHeap(e) && e + ELEM_WORDS <= mem.Length < WORD_VALUES
      requires !Listed(lists, e)
      modifies mem, this`lists
      ensures lists == old(lists)[i := Pushed(old(lists)[i], e, front)]
      ensures Links(mem[..], lists) && LinksTouched(old(mem[..]), mem[..], lists)
    {
      ghost var m := mem[..];
      PushedIsWith(lists[i], e, front);
      hide Links, LinksTouched, Listed, ChainOf, With, LinkedIn, Pushed;
      PushElem(i, front, e);
      LinksInsert(m, mem[..], lists, i, if front then 0 else |lists[i]|, e);
      lists := lists[i := Pushed(lists[i], e, front)];
    }

    // Pushes the element e to the front or to the back of list i.
    method PushElem(i: nat, front: bool, e: nat)
      requires Links(mem[..], lists) && i < |lists| && InHeap(e) && e + ELEM_WORDS <= mem.Length && !Listed(lists, e)
      modifies mem
      ensures
        var c, k := ChainOf(i, lists[i]), if front then 0 else |lists[i]|;
        LinkedIn(old(mem[..]), mem[..], c[k], e, e, c[k + 1])
    {
      InsertReady(mem[..], lists, i, if front then 0 else |lists[i]|, e);
      hide Links, Listed;
      if front {
        ListPushFront(mem, Head(i), e);
      } else {
        ListPushBack(mem, Head(i), e);
      }
    }

    lemma InsertReady(m: seq<Word>, lists: seq<seq<nat>>, i: nat, k: nat, e: nat)
      requires Links(m, lists) && i < |lists| && k <= |lists[i]| && InHeap(e) && !Listed(lists, e)
      ensures
        var c := ChainOf(i, lists[i]);
        && Elem(m, c[k]) && Elem(m, c[k + 1]) && Prev(m, c[k + 1]) == c[k] && Next(m, c[k]) == c[k + 1]
        && Apart(c[k], e) && Apart(c[k + 1], e) && Apart(c[k], c[k + 1])
    {
      assert ListAt(m, lists, i);
      var c := ChainOf(i, lists[i]);
      assert Linked(m, c[k], c[k + 1]);
      NodesApartFrom(m, lists, i, k, e);
      NodesApartFrom(m, lists, i, k + 1, e);
    }

    // remove_free_block on a settled block, which becomes pending.
    method RemoveSettled(b: nat, ghost x: set<nat>)
      requires State(x) && b in blocks && b !in x && b < mem.Length && BlkFree(b)
      modifies mem, this`lists
      ensures State(x + {b}) && UsedNow() == old(UsedNow())
      ensures SameTags(old(mem[..]), mem[..], brk - 1, blocks) && Keeps(old(mem[..]), mem[..], old(UsedNow()))
    {
      hide Tiled, Links, LinksTouched, Coalesced, Mids, SameTags, Keeps, UsedBlocks;
      ghost var m := mem[..];
      ghost var i, k := Position(m, blocks, lists, x, b);
      ghost var old_lists := lists;
      RemoveFreeBlock(b, i, k);
      AfterUnlink(m, mem[..], brk - 1, blocks, old_lists, x, i, k);
    }

    lemma Position(m: seq<Word>, s: set<nat>, lists: seq<seq<nat>>, x: set<nat>, b: nat) returns (i: nat, k: nat)
      requires Classified(m, s, lists, x) && b in s && b !in x && b < |m| && !Used(m, b)
      ensures i < |lists| && k < |lists[i]| && lists[i][k] == b + 2
    {
      assert InItsList(m, lists, b);
      i := FitIndex(Size(m, b));
      k :| 0 <= k < |lists[i]| && lists[i][k] == b + 2;
    }

    // insert_free_block on a pending block between used ones, which settles it.
    method InsertPending(b: nat, ghost x: set<nat>)
      requires State(x) && b in blocks && b in x && FIRST <= b && b < mem.Length && BlkFree(b)
      requires mem[b - 1] % 2 == 1 && NextBlk(b) < mem.Length && mem[NextBlk(b)] % 2 == 1
      modifies mem, this`lists
      ensures State(x - {b}) && UsedNow() == old(UsedNow())
      ensures SameTags(old(mem[..]), mem[..], brk - 1, blocks) && Keeps(old(mem[..]), mem[..], old(UsedNow()))
    {
      ghost var m, old_lists := mem[..], lists;
      assert Block(m, brk - 1, blocks, MIN_BLOCK_SIZE_WORDS, b);
      NotListed(m, blocks, lists, x, b);
      assert |lists| == FREE_LISTS_SIZE;
      hide Tiled, Links, LinksTouched, Coalesced, Mids, SameTags, Keeps, UsedBlocks, Classified;
      var ok := InsertFreeBlock(b);
      AfterLink(m, mem[..], brk - 1, blocks, old_lists, x, b);
    }

    // mark_block_used or mark_block_free on the words from b to e, over blocks that are pending or used.
    method MarkBlock(b: nat, size: nat, used: bool, ghost x: set<nat>)
      requires State(x) && b in blocks && b + size in blocks + {brk - 1} && 0 < size
      requires forall c :: c in blocks && b <= c < b + size ==> c < mem.Length && (c in x || !BlkFree(c))
      modifies mem, this`blocks
      ensures blocks == Joined(old(blocks), b, b + size)
      ensures State(PendingJoined(x, b, b + size, used))
      ensures UsedNow() == Outside(old(UsedNow()), b, b + size) + (if used then {b} else {})
      ensures Keeps(old(mem[..]), mem[..], Outside(old(UsedNow()), b, b + size))
      ensures size < 0x4000_0000 && b + size < brk && mem[..] == Tagged(old(mem[..]), b, size, used)
    {
      SizesPositive(mem[..], brk - 1, blocks, MIN_BLOCK_SIZE_WORDS);
      hide HeapState, Tagged, Keeps, UsedBlocks;
      ghost var m := mem[..];
      AfterJoin(m, brk - 1, blocks, lists, x, b, b + size, used);
      SetHeaderAndFooter(b, size, used);
      blocks := Joined(blocks, b, b + size);
    }

    // Joins the pending block bp with its free neighbours and puts the result in its list.
    method Coalesce(bp: nat) returns (r: nat)
      requires State({bp}) && bp in blocks && bp < mem.Length && BlkFree(bp)
      modifies mem, this`lists, this`blocks
      ensures State({}) && UsedNow() == old(UsedNow()) && Keeps(old(mem[..]), mem[..], old(UsedNow()))
      ensures r in blocks && r <= bp && r < mem.Length && BlkFree(r) && bp + old(BlkSize(bp)) <= r + BlkSize(r)
      ensures blocks == Joined(old(blocks), r, r + BlkSize(r))
    {
      hide HeapState, Keeps, UsedBlocks, SameTags, Joined;
      ghost var m := mem[..];
      Extent(m, brk - 1, blocks, lists, {bp}, bp);
      NothingJoined(m, brk - 1, blocks, lists, {bp}, bp);
      var prevAlloc := mem[bp - 1] % 2 == 1;
      var nextAlloc := !BlkFree(NextBlk(bp));
      if prevAlloc && nextAlloc {
        r := bp;
      } else if prevAlloc && !nextAlloc {
        r := CoalesceNext(bp);
      } else if !prevAlloc && nextAlloc {
        r := CoalescePrevious(bp);
      } else {
        r := CoalesceBoth(bp);
      }
      ghost var m1, l1 := mem[..], lists;
      InsertPending(r, {r});
      BoundaryKept(m1, mem[..], brk - 1, blocks, l1, {r}, r);
      KeepsTransitive(m, m1, mem[..], old(UsedNow()));
      assert {r} - {r} == {};
    }

    // Case 2 of coalesce: this block and the next.
    method CoalesceNext(bp: nat) returns (r: nat)
      requires State({bp}) && bp in blocks && 0 < bp < mem.Length && BlkFree(bp) && NextBlk(bp) < mem.Length
      requires mem[bp - 1] % 2 == 1 && BlkFree(NextBlk(bp))
      modifies mem, this`lists, this`blocks
      ensures State({r}) && UsedNow() == old(UsedNow()) && Keeps(old(mem[..]), mem[..], old(UsedNow()))
      ensures r in blocks && FIRST <= r <= bp && r < mem.Length && BlkFree(r) && bp + old(BlkSize(bp)) <= r + BlkSize(r)
      ensures blocks == Joined(old(blocks), r, r + BlkSize(r))
      ensures mem[r - 1] % 2 == 1 && NextBlk(r) < mem.Length && mem[NextBlk(r)] % 2 == 1
    {
      hide HeapState, Keeps, UsedBlocks, SameTags, Joined, Tagged;
      ghost var m, epi, s, l, n := mem[..], brk - 1, blocks, lists, NextBlk(bp);
      Extent(m, epi, s, l, {bp}, bp);
      FreeAfter(m, epi, s, l, {bp}, n);
      var size := BlkSize(bp);
      RemoveSettled(NextBlk(bp), {bp});
      ghost var m1 := mem[..];
      BoundaryKept(m, m1, epi, s, l, {bp}, bp);
      BoundaryKept(m, m1, epi, s, l, {bp}, n);
      BoundaryKept(m, m1, epi, s, l, {bp}, n + Size(m, n));
      assert {bp} + {n} == {bp, n};
      MarkPending(bp, size + BlkSize(NextBlk(bp)), {bp, n});
      KeepsTransitive(m, m1, mem[..], old(UsedNow()));
      r := bp;
    }

    // Case 3 of coalesce: the previous block and this.
    method CoalescePrevious(bp: nat) returns (r: nat)
      requires State({bp}) && bp in blocks && 0 < bp < mem.Length && BlkFree(bp) && NextBlk(bp) < mem.Length
      requires BlkFree(bp - 1) && !BlkFree(NextBlk(bp))
      modifies mem, this`lists, this`blocks
      ensures State({r}) && UsedNow() == old(UsedNow()) && Keeps(old(mem[..]), mem[..], old(UsedNow()))
      ensures r in blocks && FIRST <= r <= bp && r < mem.Length && BlkFree(r) && bp + old(BlkSize(bp)) <= r + BlkSize(r)
      ensures blocks == Joined(old(blocks), r, r + BlkSize(r))
      ensures mem[r - 1] % 2 == 1 && NextBlk(r) < mem.Length && mem[NextBlk(r)] % 2 == 1
    {
      hide HeapState, Keeps, UsedBlocks, SameTags, Joined, Tagged;
      ghost var m, epi, s, l := mem[..], brk - 1, blocks, lists;
      Extent(m, epi, s, l, {bp}, bp);
      FreeBefore(m, epi, s, l, {bp}, bp);
      FreeAfter(m, epi, s, l, {bp}, NextBlk(bp));
      ghost var p := PrevBlk(bp);
      var size := BlkSize(bp);
      RemoveSettled(PrevBlk(bp), {bp});
      ghost var m1 := mem[..];
      BoundaryKept(m, m1, epi, s, l, {bp}, bp);
      BoundaryKept(m, m1, epi, s, l, {bp}, p);
      BoundaryKept(m, m1, epi, s, l, {bp}, bp + Size(m, bp));
      assert {bp} + {p} == {bp, p};
      r := PrevBlk(bp);
      MarkPending(r, size + BlkSize(r), {bp, p});
      KeepsTransitive(m, m1, mem[..], old(UsedNow()));
    }

    // Case 4 of coalesce: the previous block, this, and the next.
    method CoalesceBoth(bp: nat) returns (r: nat)
      requires State({bp}) && bp in blocks && 0 < bp < mem.Length && BlkFree(bp) && NextBlk(bp) < mem.Length
      requires BlkFree(bp - 1) && BlkFree(NextBlk(bp))
      modifies mem, this`lists, this`blocks
      ensures State({r}) && UsedNow() == old(UsedNow()) && Keeps(old(mem[..]), mem[..], old(UsedNow()))
      ensures r in blocks && FIRST <= r <= bp && r < mem.Length && BlkFree(r) && bp + old(BlkSize(bp)) <= r + BlkSize(r)
      ensures blocks == Joined(old(blocks), r, r + BlkSize(r))
      ensures mem[r - 1] % 2 == 1 && NextBlk(r) < mem.Length && mem[NextBlk(r)] % 2 == 1
    {
      hide HeapState, Keeps, UsedBlocks, SameTags, Joined;
      ghost var m, epi, s, l, n := mem[..], brk - 1, blocks, lists, NextBlk(bp);
      Extent(m, epi, s, l, {bp}, bp);
      FreeBefore(m, epi, s, l, {bp}, bp);
      FreeAfter(m, epi, s, l, {bp}, n);
      ghost var p := PrevBlk(bp);
      var size := BlkSize(bp);
      RemoveBoth(bp);
      ghost var m2 := mem[..];
      BoundaryKept(m, m2, epi, s, l, {bp}, bp);
      BoundaryKept(m, m2, epi, s, l, {bp}, p);
      BoundaryKept(m, m2, epi, s, l, {bp}, n);
      BoundaryKept(m, m2, epi, s, l, {bp}, n + Size(m, n));
      r := MarkBoth(bp, size);
      KeepsTransitive(m, m2, mem[..], old(UsedNow()));
    }

    // Once the whole is marked, the way back to its start goes through the footer that the previous block had,
    // which nothing has overwritten.
    method MarkBoth(bp: nat, size: nat) returns (r: nat)
      requires 0 < bp < mem.Length && BlkSize(bp) == size && NextBlk(bp) < mem.Length
      requires MIN_BLOCK_SIZE_WORDS <= BlkSize(bp - 1) < bp
      requires
        var p, n := PrevBlk(bp), NextBlk(bp);
        var e := n + BlkSize(n);
        && State({bp, n, p}) && p in blocks && e in blocks + {brk - 1} && BlkSize(p) == bp - p
           && FIRST <= p < bp < n < e
        && (forall c :: c in blocks && p <= c < e ==> c in {bp, n, p} && BlkFree(c))
        && mem[p - 1] % 2 == 1 && e < mem.Length && mem[e] % 2 == 1
      modifies mem, this`blocks
      ensures r == old(PrevBlk(bp)) && r in blocks && BlkFree(r)
      ensures BlkSize(r) == old(BlkSize(PrevBlk(bp)) + size + BlkSize(NextBlk(bp)))
      ensures State({r}) && UsedNow() == old(UsedNow()) && Keeps(old(mem[..]), mem[..], old(UsedNow()))
      ensures blocks == Joined(old(blocks), r, r + BlkSize(r))
      ensures mem[r - 1] % 2 == 1 && NextBlk(r) < mem.Length && mem[NextBlk(r)] % 2 == 1
    {
      hide HeapState, Keeps, UsedBlocks, Tagged, Joined;
      ghost var m, p, n := mem[..], PrevBlk(bp), NextBlk(bp);
      ghost var size' := size + BlkSize(n) + BlkSize(p);
      MarkPending(PrevBlk(bp), size + BlkSize(NextBlk(bp)) + BlkSize(PrevBlk(bp)), {bp, n, p});
      TaggedWords(m, p, size', false, bp - 1);
      TaggedWords(m, p, size', false, p - 1);
      TaggedWords(m, p, size', false, p + size');
      r := PrevBlk(bp);
    }

    method RemoveBoth(bp: nat)
      requires State({bp}) && bp in blocks && 0 < bp < mem.Length && BlkFree(bp) && NextBlk(bp) < mem.Length
      requires BlkFree(bp - 1) && BlkFree(NextBlk(bp)) && BlkSize(bp - 1) <= bp
      modifies mem, this`lists
      ensures State({bp, old(NextBlk(bp)), old(PrevBlk(bp))}) && UsedNow() == old(UsedNow())
      ensures SameTags(old(mem[..]), mem[..], brk - 1, blocks) && Keeps(old(mem[..]), mem[..], old(UsedNow()))
    {
      hide HeapState, Keeps, UsedBlocks, SameTags;
      ghost var m, epi, s, l, n := mem[..], brk - 1, blocks, lists, NextBlk(bp);
      Extent(m, epi, s, l, {bp}, bp);
      FreeBefore(m, epi, s, l, {bp}, bp);
      FreeAfter(m, epi, s, l, {bp}, n);
      ghost var p := PrevBlk(bp);
      RemoveSettled(NextBlk(bp), {bp});
      ghost var m1, l1 := mem[..], lists;
      BoundaryKept(m, m1, epi, s, l, {bp}, bp);
      BoundaryKept(m, m1, epi, s, l, {bp}, p);
      assert {bp} + {n} == {bp, n};
      RemoveSettled(PrevBlk(bp), {bp, n});
      assert {bp, n} + {p} == {bp, n, p};
      KeepsTransitive(m, m1, mem[..], old(UsedNow()));
      SameTagsTransitive(m, m1, mem[..], epi, s);
    }

    // mark_block_free over the pending blocks in x, which become one.
    method MarkPending(b: nat, size: nat, ghost x: set<nat>)
      requires State(x) && b in blocks && b + size in blocks + {brk - 1} && 0 < size
      requires forall c :: c in blocks && b <= c < b + size ==> c < mem.Length && c in x && BlkFree(c)
      requires forall c :: c in x ==> b <= c < b + size
      modifies mem, this`blocks
      ensures State({b}) && UsedNow() == old(UsedNow()) && Keeps(old(mem[..]), mem[..], old(UsedNow()))
      ensures blocks == Joined(old(blocks), b, b + size) && b in blocks
      ensures size < 0x4000_0000 && b + size < brk <= mem.Length && mem[..] == Tagged(old(mem[..]), b, size, false)
      ensures BlkSize(b) == size && BlkFree(b) && mem[b + size] == old(mem[b + size])
      ensures 0 < b ==> mem[b - 1] == old(mem[b - 1])
    {
      ghost var m := mem[..];
      JoinOfPending(m, blocks, x, b, b + size);
      BlockKept(blocks, b, b + size);
      hide HeapState, Keeps, UsedBlocks, Outside, PendingJoined, Tagged, Joined;
      MarkBlock(b, size, false, x);
      TaggedAround(m, b, size, false);
    }

    lemma BlockKept(s: set<nat>, b: nat, e: nat)
      requires b in s
      ensures b in Joined(s, b, e)
    {
    }

    lemma TaggedAround(m: seq<Word>, b: nat, size: nat, used: bool)
      requires 0 < size < 0x4000_0000 && b + size < |m|
      ensures
        var m' := Tagged(m, b, size, used);
        |m'| == |m| && Size(m', b) == size && Used(m', b) == used && m'[b + size] == m[b + size]
            && (0 < b ==> m'[b - 1] == m[b - 1])
    {
    }

    method ScanFront(i: nat, asize: nat) returns (b: nat)
      requires Links(mem[..], lists) && i < FREE_LISTS_SIZE
      ensures b == FirstFit(mem[..], Front(lists[i]), asize)
    {
      ghost var m, l := mem[..], lists[i];
      ghost var c, w := ChainOf(i, l), Front(l);
      assert ListAt(m, lists, i);
      assert Linked(m, c[0], c[1]);
      var e := Load(mem, Head(i) + 2);
      var count := 0;
      while e != Tail(i)
        invariant 0 <= count <= |w| && e == c[count + 1]
        invariant FirstFit(m, w, asize) == FirstFit(m, w[count..], asize)
        decreases |l| - count
      {
        assert count < |l| && c[count + 1] == l[count] && InHeap(l[count]);
        if count == LIMIT {
          break;
        }
        if BlkSize(e - 2) >= asize {
          return e - 2;
        }
        assert w[count..][1..] == w[count + 1..];
        assert Linked(m, c[count + 1], c[count + 2]);
        e := Load(mem, e + 2);
        count := count + 1;
      }
      ScanEnds(m, lists, i, count);
      return 0;
    }

    method ScanBack(i: nat, asize: nat) returns (b: nat)
      requires Links(mem[..], lists) && i < FREE_LISTS_SIZE
      ensures b == FirstFit(mem[..], Back(lists[i]), asize)
    {
      ghost var m, l := mem[..], lists[i];
      ghost var c, w := ChainOf(i, l), Back(l);
      assert ListAt(m, lists, i);
      assert Linked(m, c[|l|], c[|l| + 1]);
      var e := Load(mem, Tail(i));
      var count := 0;
      while e != Head(i)
        invariant 0 <= count <= |w| && e == c[|l| - count]
        invariant FirstFit(m, w, asize) == FirstFit(m, w[count..], asize)
        decreases |l| - count
      {
        assert count < |l| && c[|l| - count] == l[|l| - 1 - count] && InHeap(l[|l| - 1 - count]);
        if count == LIMIT {
          break;
        }
        if BlkSize(e - 2) >= asize {
          return e - 2;
        }
        assert w[count..][1..] == w[count + 1..];
        assert Linked(m, c[|l| - 1 - count], c[|l| - count]);
        e := Load(mem, e);
        count := count + 1;
      }
      ScanBackEnds(m, lists, i, count);
      return 0;
    }

    // find_fit: the block that is to be found, 0 for NULL.
    method FindFit(asize: nat) returns (b: nat)
      requires Links(mem[..], lists) && Mids(mem[..])
      ensures |lists| == FREE_LISTS_SIZE && b == FitFor(mem[..], lists, asize)
      ensures asize < 8 ==> b == 0
      ensures forall i :: OfClass(i, asize) ==> Chosen(mem[..], lists, i, asize, b)
    {
      b := Search(asize);
      forall i | OfClass(i, asize) ensures Chosen(mem[..], lists, i, asize, b) {
        FitIsChosen(mem[..], lists, i, asize);
      }
    }

    method Search(asize: nat) returns (b: nat)
      requires Links(mem[..], lists) && Mids(mem[..])
      ensures |lists| == FREE_LISTS_SIZE && b == FitFor(mem[..], lists, asize)
    {
      assert |lists| == FREE_LISTS_SIZE;
      hide Links, Front, Back, FirstFit;
      var fitIndex := FindFitIndex(asize);
      if fitIndex < 0 {
        return 0;
      }
      if asize < mem[MidAt(fitIndex)] {
        b := ScanFront(fitIndex, asize);
      } else {
        b := ScanBack(fitIndex, asize);
      }
      if b != 0 {
        return;
      }
      var i := fitIndex + 1;
      while i < FREE_LISTS_SIZE
        invariant fitIndex < i <= FREE_LISTS_SIZE
        invariant FitFor(mem[..], lists, asize) == SearchFrom(mem[..], lists, i, asize)
      {
        b := ScanFront(i, asize);
        if b != 0 {
          return;
        }
        i := i + 1;
      }
      return 0;
    }

    lemma ScanBackEnds(m: seq<Word>, lists: seq<seq<nat>>, i: nat, count: nat)
      requires Links(m, lists) && i < |lists| && count <= |lists[i]|
      requires count == LIMIT || ChainOf(i, lists[i])[|lists[i]| - count] == Head(i)
      ensures count == LIMIT || count == |lists[i]|
    {
      assert ListAt(m, lists, i);
      if count < |lists[i]| {
        assert ChainOf(i, lists[i])[|lists[i]| - count] == lists[i][|lists[i]| - 1 - count];
      }
    }

    lemma ScanEnds(m: seq<Word>, lists: seq<seq<nat>>, i: nat, count: nat)
      requires Links(m, lists) && i < |lists| && count <= |lists[i]|
      requires count == LIMIT || ChainOf(i, lists[i])[count + 1] == Tail(i)
      ensures count == LIMIT || count == |lists[i]|
    {
      assert ListAt(m, lists, i);
      if count < |lists[i]| {
        assert ChainOf(i, lists[i])[count + 1] == lists[i][count];
      }
    }

    // Marks the first k words of the listed block bp used, then takes it off its list.
    // n is the memory as it would be had only the second been done.
    method MarkUsedAndRemove(bp: nat, k: nat) returns (ghost n: seq<Word>)
      requires State({}) && bp in blocks && bp < mem.Length && BlkFree(bp)
      requires MIN_BLOCK_SIZE_WORDS <= k <= BlkSize(bp) < 0x4000_0000
      modifies mem, this`lists
      ensures HeapState(n, brk - 1, blocks, lists, {bp}) && |n| == mem.Length && bp + k <= |n|
      ensures SameTags(old(mem[..]), n, brk - 1, blocks) && Keeps(old(mem[..]), n, old(UsedNow()))
      ensures UsedBlocks(n, blocks) == old(UsedNow())
      ensures mem[..] == Tagged(n, bp, k, true)
    {
      ghost var m, epi, s, l := mem[..], brk - 1, blocks, lists;
      ghost var i, j := Position(m, s, l, {}, bp);
      BlockExtent(m, epi, s, MIN_BLOCK_SIZE_WORDS, bp);
      NotElementWord(m, epi, s, l, {}, bp, bp);
      NotElementWord(m, epi, s, l, {}, bp, bp + k - 1);
      TaggedKeepsLinks(m, l, bp, k, true);
      hide Tiled, Links, LinksTouched, Coalesced, Mids, SameTags, Keeps, UsedBlocks, Classified, ElementWord, Tagged;
      SetHeaderAndFooter(bp, k, true);
      RemoveFreeBlock(bp, i, j);
      n := MarkThenUnlink(m, mem[..], epi, s, l, {}, i, j, bp, k);
      assert {} + {bp} == {bp};
    }

    // place: asize words of the free block bp become a used block; a remainder that can be one becomes free.
    method Place(bp: nat, asize: nat)
      requires State({}) && bp in blocks && bp < mem.Length && BlkFree(bp)
      requires MIN_BLOCK_SIZE_WORDS <= asize <= BlkSize(bp) && asize % 4 == 0
      modifies mem, this`lists, this`blocks
      ensures State({}) && UsedNow() == old(UsedNow()) + {bp} && Keeps(old(mem[..]), mem[..], old(UsedNow()))
      ensures
        var rest := old(BlkSize(bp)) - asize;
        if rest >= MIN_BLOCK_SIZE_WORDS
        then BlkSize(bp) == asize && blocks == old(blocks) + {bp + asize}
        else BlkSize(bp) == asize + rest && blocks == old(blocks)
    {
      BlockExtent(mem[..], brk - 1, blocks, MIN_BLOCK_SIZE_WORDS, bp);
      var csize := BlkSize(bp);
      if csize - asize >= MIN_BLOCK_SIZE_WORDS {
        PlaceSplit(bp, asize);
      } else {
        PlaceWhole(bp);
      }
    }

    method PlaceSplit(bp: nat, asize: nat)
      requires State({}) && bp in blocks && bp < mem.Length && BlkFree(bp)
      requires MIN_BLOCK_SIZE_WORDS <= asize && asize + MIN_BLOCK_SIZE_WORDS <= BlkSize(bp) && asize % 4 == 0
      modifies mem, this`lists, this`blocks
      ensures State({}) && UsedNow() == old(UsedNow()) + {bp} && Keeps(old(mem[..]), mem[..], old(UsedNow()))
      ensures BlkSize(bp) == asize && blocks == old(blocks) + {bp + asize}
    {
      hide HeapState, Keeps, UsedBlocks, SameTags;
      ghost var m, u := mem[..], UsedNow();
      var rest := SplitOff(bp, asize);
      ghost var m3, l3 := mem[..], lists;
      InsertPending(rest, {rest});
      assert {rest} - {rest} == {};
      KeepsLess(m3, mem[..], u + {bp}, u);
      KeepsTransitive(m, m3, mem[..], u);
      BoundaryKept(m3, mem[..], brk - 1, blocks, l3, {rest}, bp);
    }

    // The first part of place, up to the free remainder, which is pending then.
    method SplitOff(bp: nat, asize: nat) returns (rest: nat)
      requires State({}) && bp in blocks && bp < mem.Length && BlkFree(bp)
      requires MIN_BLOCK_SIZE_WORDS <= asize && asize + MIN_BLOCK_SIZE_WORDS <= BlkSize(bp) && asize % 4 == 0
      modifies mem, this`lists, this`blocks
      ensures rest == bp + asize && State({rest}) && blocks == old(blocks) + {rest}
      ensures UsedNow() == old(UsedNow()) + {bp} && Keeps(old(mem[..]), mem[..], old(UsedNow()))
      ensures FIRST <= rest < mem.Length && BlkSize(bp) == asize && BlkFree(rest)
      ensures mem[rest - 1] % 2 == 1 && NextBlk(rest) < mem.Length && mem[NextBlk(rest)] % 2 == 1
    {
      hide HeapState, Keeps, UsedBlocks, SameTags, Joined, Tagged;
      ghost var m, epi, s, l := mem[..], brk - 1, blocks, lists;
      var csize := BlkSize(bp);
      Extent(m, epi, s, l, {}, bp);
      FreeAfter(m, epi, s, l, {}, bp);
      ghost var n := MarkUsedAndRemove(bp, asize);
      BoundaryKept(m, n, epi, s, l, {}, bp);
      BoundaryKept(m, n, epi, s, l, {}, bp + csize);
      AfterSplit(n, epi, s, lists, {bp}, bp, asize);
      PartsTagged(n, bp, asize, csize);
      rest := NextBlk(bp);
      SetHeaderAndFooter(rest, csize - asize, false);
      KeepsTransitive(m, n, mem[..], old(UsedNow()));
      blocks := blocks + {rest};
      assert {bp} - {bp} + {rest} == {rest};
    }

    lemma PartsTagged(m: seq<Word>, b: nat, k: nat, size: nat)
      requires 2 <= k && k + 2 <= size < 0x4000_0000 && b + size < |m|
      ensures
        var m1 := Tagged(m, b, k, true);
        var m2 := Tagged(m1, b + k, size - k, false);
        && |m1| == |m2| == |m| && Size(m1, b) == Size(m2, b) == k && Size(m2, b + k) == size - k && !Used(m2, b + k)
        && Used(m2, b + k - 1) && m2[b + size] == m[b + size]
    {
    }

    method PlaceWhole(bp: nat)
      requires State({}) && bp in blocks && bp < mem.Length && BlkFree(bp)
      modifies mem, this`lists
      ensures State({}) && UsedNow() == old(UsedNow()) + {bp} && Keeps(old(mem[..]), mem[..], old(UsedNow()))
      ensures BlkSize(bp) == old(BlkSize(bp))
    {
      hide HeapState, Keeps, UsedBlocks, SameTags, Joined, Outside, PendingJoined, Tagged;
      ghost var m, epi, s, l := mem[..], brk - 1, blocks, lists;
      var csize := BlkSize(bp);
      Extent(m, epi, s, l, {}, bp);
      NothingJoined(m, epi, s, l, {}, bp);
      ghost var n := MarkUsedAndRemove(bp, csize);
      BoundaryKept(m, n, epi, s, l, {}, bp);
      JoinOfOneState(n, s, bp, bp + csize);
      FreeIsNotUsed(n, s, bp);
      TaggedAround(n, bp, csize, true);
      AfterJoin(n, epi, s, lists, {bp}, bp, bp + csize, true);
      KeepsTransitive(m, n, mem[..], old(UsedNow()));
    }

    lemma ReadExtent(b: nat)
      requires State({}) && b in blocks
      ensures b < mem.Length && b + BlkSize(b) <= brk - 1 && MIN_BLOCK_SIZE_WORDS <= BlkSize(b) && BlkSize(b) % 4 == 0
      ensures FIRST <= b && b % 4 == 3
    {
      BlockExtent(mem[..], brk - 1, blocks, MIN_BLOCK_SIZE_WORDS, b);
    }

    // mem_sbrk, given a byte count that is a multiple of the word size: where the new words start, 0 for NULL.
    method MemSbrk(incr: int) returns (p: nat)
      requires incr % WSIZE == 0 && 0 < brk <= HEAP_MAX
      modifies this`brk
      ensures p == 0 ==> brk == old(brk)
      ensures p == 0 <==> incr < 0 || old(brk) + incr / WSIZE > HEAP_MAX
      ensures p != 0 ==> p == old(brk) && brk == old(brk) + incr / WSIZE
    {
      if incr < 0 || brk + incr / WSIZE > HEAP_MAX {
        return 0;
      }
      p := brk;
      brk := brk + incr / WSIZE;
    }

    // extend_heap: the new free block, joined with the one before it if that is free; 0 for NULL.
    method ExtendHeap(words: nat) returns (r: nat)
      requires State({}) && words % 4 == 0
      requires !GetsLess(brk, words) ==> MIN_BLOCK_SIZE_WORDS <= words || (0 < words && CannotExtend(words))
      requires GetsLess(brk, words) ==> MIN_BLOCK_SIZE_WORDS <= SbrkWords(words) == SizeField(words)
      modifies this`brk, mem, this`lists, this`blocks
      ensures r == 0 <==> old(!GetsLess(brk, words) && CannotExtend(words))
      ensures r == 0 ==>
        State({}) && mem[..] == old(mem[..]) && brk == old(brk) && blocks == old(blocks) && lists == old(lists)
      ensures r != 0 ==>
        var got := if GetsLess(old(brk), words) then SbrkWords(words) else words;
        && State({}) && 0 < got && brk == old(brk) + got
        && r in blocks && r < old(brk) && r < mem.Length && BlkFree(r) && r + BlkSize(r) == brk - 1
        && got <= BlkSize(r) && blocks == Joined(old(blocks) + {old(brk) - 1}, r, brk - 1)
        && UsedNow() == old(UsedNow()) && Keeps(old(mem[..]), mem[..], old(UsedNow()))
    {
      hide HeapState, Keeps, UsedBlocks, SameTags, Joined, ToInt, ToInt31;
      ghost var m, u := mem[..], UsedNow();
      SbrkGets(brk, words);
      var bp := MemSbrk(ToInt(words * WSIZE));
      if bp == 0 {
        return 0;
      }
      var blk := NewBlock(bp, SizeField(words));
      ghost var m1 := mem[..];
      r := Coalesce(blk);
      KeepsTransitive(m, m1, mem[..], u);
      ReadExtent(r);
    }

    // The words from bp on, just got, and the epilogue before them become a free block and a new epilogue.
    method NewBlock(bp: nat, words: nat) returns (blk: nat)
      requires mem.Length == HEAP_MAX && FIRST < bp && bp + words == brk <= HEAP_MAX
      requires MIN_BLOCK_SIZE_WORDS <= words && words % 4 == 0
      requires HeapState(mem[..], bp - 1, blocks, lists, {})
      modifies mem, this`blocks
      ensures State({blk}) && blk == bp - 1 && blocks == old(blocks) + {blk}
      ensures UsedNow() == old(UsedNow()) && Keeps(old(mem[..]), mem[..], old(UsedNow()))
      ensures BlkSize(blk) == words && BlkFree(blk)
    {
      ghost var m, s := mem[..], blocks;
      SizesPositive(m, bp - 1, s, MIN_BLOCK_SIZE_WORDS);
      AfterExtend(m, bp - 1, s, lists, {}, words);
      hide HeapState, Keeps, UsedBlocks, SameTags;
      blk := bp - 1;
      SetHeaderAndFooter(blk, words, false);
      mem[NextBlk(blk)] := FENCE;
      blocks := blocks + {blk};
      assert mem[..] == Tagged(m, bp - 1, words, false)[bp - 1 + words := FENCE];
      assert {} + {blk} == {blk};
    }

    // mm_init on an empty heap.
    method MmInit() returns (rc: int)
      requires mem.Length == HEAP_MAX && brk == HEAP_LO
      modifies this, mem
      ensures rc == 0 && Valid() && live == map[] && blocks == {} && brk == FIRST + 1
    {
      hide ListAt, Linked;
      var initial := MemSbrk(4 * WSIZE);
      if initial == 0 {
        return -1;
      }
      mem[initial + 2] := FENCE;
      mem[initial + 3] := FENCE;
      blocks, live := {}, map[];
      lists := seq(FREE_LISTS_SIZE, _ => []);
      var i := 0;
      while i < FREE_LISTS_SIZE
        invariant 0 <= i <= FREE_LISTS_SIZE
        invariant mem[FIRST - 1] == FENCE && mem[FIRST] == FENCE && brk == FIRST + 1 && blocks == {} && live == map[]
        invariant |lists| == FREE_LISTS_SIZE && forall j :: 0 <= j < FREE_LISTS_SIZE ==> lists[j] == []
        invariant forall j :: 0 <= j < i ==> ListAt(mem[..], lists, j) && mem[MidAt(j)] == RANGES[j] / 2
      {
        ghost var m := mem[..];
        InitList(i);
        InitStep(m, mem[..], lists, i);
        i := i + 1;
      }
      InitDone(mem[..], lists);
      return 0;
    }

    method InitList(i: nat)
      requires mem.Length == HEAP_MAX && i < FREE_LISTS_SIZE
      modifies mem
      ensures forall w :: 0 <= w < mem.Length && !(Head(i) <= w <= MidAt(i)) ==> mem[w] == old(mem[w])
      ensures Linked(mem[..], Head(i), Tail(i)) && Prev(mem[..], Head(i)) == 0 && Next(mem[..], Tail(i)) == 0
      ensures mem[MidAt(i)] == RANGES[i] / 2
    {
      ListInit(mem, Head(i));
      mem[MidAt(i)] := RANGES[i] / 2;
    }

    lemma InitStep(m: seq<Word>, m': seq<Word>, lists: seq<seq<nat>>, i: nat)
      requires |lists| == FREE_LISTS_SIZE && i < FREE_LISTS_SIZE
      requires (forall j :: 0 <= j < FREE_LISTS_SIZE ==> lists[j] == [])
      requires |m'| == |m| == HEAP_MAX
      requires forall w :: 0 <= w < |m| && !(Head(i) <= w <= MidAt(i)) ==> m'[w] == m[w]
      requires Linked(m', Head(i), Tail(i)) && Prev(m', Head(i)) == 0 && Next(m', Tail(i)) == 0
      requires forall j :: 0 <= j < i ==> ListAt(m, lists, j)
      ensures forall j :: 0 <= j <= i ==> ListAt(m', lists, j)
    {
      forall j | 0 <= j <= i ensures ListAt(m', lists, j) {
        var c := ChainOf(j, lists[j]);
        assert c == [Head(j), Tail(j)];
        if j < i {
          assert ListAt(m, lists, j) && Linked(m, c[0], c[1]);
        }
      }
    }

    lemma InitDone(m: seq<Word>, lists: seq<seq<nat>>)
      requires |m| == HEAP_MAX && m[FIRST - 1] == FENCE && m[FIRST] == FENCE
      requires |lists| == FREE_LISTS_SIZE && (forall j :: 0 <= j < FREE_LISTS_SIZE ==> lists[j] == [])
      requires forall j :: 0 <= j < FREE_LISTS_SIZE ==> ListAt(m, lists, j) && m[MidAt(j)] == RANGES[j] / 2
      ensures HeapState(m, FIRST, {}, lists, {}) && LiveMatches(m, UsedBlocks(m, {}), map[])
    {
    }

    // malloc finds no block and cannot get one.
    ghost predicate OutOfMemory(size: nat)
      requires |lists| == FREE_LISTS_SIZE
      reads this, mem
    {
      && FitFor(mem[..], lists, BlockWords(size)) == 0
      && (brk + Max(BlockWords(size), CHUNKSIZE) > HEAP_MAX || Max(BlockWords(size), CHUNKSIZE) * WSIZE > INT_MAX)
    }

    // place for a request of size bytes, which is live from then on.
    method PlaceLive(bp: nat, awords: nat, ghost size: nat)
      requires Valid() && bp in blocks && bp < mem.Length && BlkFree(bp)
      requires 0 < size < SIZE_VALUES && !Overflows(size) && awords == BlockWords(size) <= BlkSize(bp)
      modifies mem, this`lists, this`blocks, this`live
      ensures Valid() && bp + 1 !in old(live) && live == old(live)[bp + 1 := size]
      ensures Keeps(old(mem[..]), mem[..], old(UsedNow()))
      ensures UsedNow() == old(UsedNow()) + {bp} && bp in blocks
      ensures awords <= BlkSize(bp) < awords + MIN_BLOCK_SIZE_WORDS
    {
      assert bp !in UsedNow();
      ghost var m, u := mem[..], UsedNow();
      hide HeapState, Keeps, UsedBlocks, LiveMatches, SamePayloads, Overflows;
      Place(bp, awords);
      NowLive(m, mem[..], u, live, bp, size);
      live := live[bp + 1 := size];
    }

    // mm_malloc: the address of size bytes, 0 for NULL.
    method MmMalloc(size: nat) returns (p: nat)
      requires Valid() && size < SIZE_VALUES
      requires !Overflows(size) ==> !GetsLess(brk, Max(BlockWords(size), CHUNKSIZE))
      modifies this, mem
      ensures Valid()
      ensures p == 0 <==> size == 0 || Overflows(size) || old(|lists| == FREE_LISTS_SIZE && OutOfMemory(size))
      ensures p == 0 ==> Unchanged(old(mem[..]), old(brk), old(blocks), old(lists), old(live))
      ensures p != 0 ==> p !in old(live) && live == old(live)[p := size]
      ensures p != 0 ==> p <= mem.Length && BlockWords(size) <= BlkSize(p - 1) < BlockWords(size) + MIN_BLOCK_SIZE_WORDS
      ensures old(|lists| == FREE_LISTS_SIZE)
      ensures p != 0 ==>
        var found := old(FitFor(mem[..], lists, BlockWords(size)));
        if found != 0 then p == found + 1 && brk == old(brk)
        else p - 1 in blocks && p <= old(brk) && brk == old(brk) + Max(BlockWords(size), CHUNKSIZE)
      ensures size != 0 && !Overflows(size) ==>
        Provided(old(mem[..]), old(brk), old(lists), BlockWords(size), p, brk, SizeOf(p))
      ensures SamePayloads(old(mem[..]), mem[..], old(live.Keys))
    {
      hide Provided, ProvidedAt, Valid, State, HeapState, Keeps, UsedBlocks, FitFor, LiveMatches, SamePayloads, Align,
           GetsLess, Links, Mids;
      ghost var m, u, v, l, end := mem[..], UsedNow(), live, lists, brk;
      ValidState();
      ReadyToFind();
      if size == 0 {
        return 0;
      }
      var bsize := Align((size + 2 * WSIZE) % SIZE_VALUES);
      if bsize < size {
        return 0;
      }
      var awords := Max(MIN_BLOCK_SIZE_WORDS, bsize / WSIZE);
      assert awords == BlockWords(size);
      hide Overflows, BlockWords, BlockBytes;
      var bp := FindFit(awords);
      if bp != 0 {
        Found(awords);
        PlaceLive(bp, awords, size);
        p := bp + 1;
      } else {
        p := ExtendAndPlace(awords, size);
      }
      LikeMalloc(FitFor(m, l, awords), end, awords, p, brk, SizeOf(p));
      ProvidedByFit(m, end, l, awords, p, brk, SizeOf(p));
      KeepsLive(m, mem[..], u, v);
    }

    lemma InMemory()
      requires State({})
      ensures mem.Length == HEAP_MAX && FIRST < brk <= HEAP_MAX
    {
    }

    // What mm_malloc needs to know of the heap before it looks for a block.
    lemma ReadyToFind()
      requires Valid()
      ensures Links(mem[..], lists) && Mids(mem[..]) && LiveMatches(mem[..], UsedNow(), live)
      ensures SamePayloads(mem[..], mem[..], live.Keys)
    {
      KeepsSelf(mem[..], brk - 1, blocks, MIN_BLOCK_SIZE_WORDS);
      KeepsLive(mem[..], mem[..], UsedNow(), live);
    }

    lemma Found(awords: nat)
      requires Valid() && |lists| == FREE_LISTS_SIZE && FitFor(mem[..], lists, awords) != 0
      ensures
        var b := FitFor(mem[..], lists, awords);
        b in blocks && b < mem.Length && BlkFree(b) && BlkSize(b) >= awords
    {
      FitIsFree(mem[..], brk - 1, blocks, lists, {}, awords);
    }

    // mm_malloc when no block fits: gets more memory and places the block there.
    method ExtendAndPlace(awords: nat, ghost size: nat) returns (p: nat)
      requires Valid() && 0 < size < SIZE_VALUES && !Overflows(size) && awords == BlockWords(size)
      requires !GetsLess(brk, Max(awords, CHUNKSIZE))
      modifies this, mem
      ensures Valid()
      ensures p == 0 <==> old(brk) + Max(awords, CHUNKSIZE) > HEAP_MAX || Max(awords, CHUNKSIZE) * WSIZE > INT_MAX
      ensures p == 0 ==> Unchanged(old(mem[..]), old(brk), old(blocks), old(lists), old(live))
      ensures p != 0 ==> p !in old(live) && live == old(live)[p := size]
      ensures Keeps(old(mem[..]), mem[..], old(UsedNow()))
      ensures p != 0 ==>
        UsedNow() == old(UsedNow()) + {p - 1} && p - 1 in blocks
            && awords <= BlkSize(p - 1) < awords + MIN_BLOCK_SIZE_WORDS
      ensures p != 0 ==> p <= old(brk) && brk == old(brk) + Max(awords, CHUNKSIZE)
    {
      hide Valid, State, HeapState, Keeps, UsedBlocks, LiveMatches, SamePayloads, GetsLess, Overflows, BlockWords,
           Joined;
      ghost var m, u := mem[..], UsedNow();
      ValidState();
      AsIs();
      var extendwords := Max(awords, CHUNKSIZE);
      var bp := ExtendHeap(extendwords);
      if bp == 0 {
        IsValid();
        return 0;
      }
      ghost var m1 := mem[..];
      StillLive(m, m1, u, live);
      IsValid();
      PlaceLive(bp, awords, size);
      KeepsTransitive(m, m1, mem[..], u);
      return bp + 1;
    }

    lemma AsIs()
      requires Valid()
      ensures Keeps(mem[..], mem[..], UsedNow()) && LiveMatches(mem[..], UsedNow(), live)
    {
      KeepsAsIs(mem[..], brk - 1, blocks, lists, {});
    }

    lemma IsValid()
      requires State({}) && LiveMatches(mem[..], UsedNow(), live)
      ensures Valid()
    {
    }

    ghost predicate Unchanged(m: seq<Word>, b: nat, s: set<nat>, l: seq<seq<nat>>, v: map<nat, nat>)
      reads this, mem
    {
      mem[..] == m && brk == b && blocks == s && lists == l && live == v
    }

    lemma NowLive(m: seq<Word>, m': seq<Word>, u: set<nat>, live: map<nat, nat>, b: nat, size: nat)
      requires LiveMatches(m, u, live) && Keeps(m, m', u) && b !in u && b < |m'|
      requires 0 < size < SIZE_VALUES && !Overflows(size) && Size(m', b) >= BlockWords(size)
      ensures b + 1 !in live && LiveMatches(m', u + {b}, live[b + 1 := size])
    {
      BlockWordsSuffice(size);
      LiveWith(m, m', u, live, b, size);
    }

    lemma FreeIsNotUsed(m: seq<Word>, s: set<nat>, b: nat)
      requires b < |m| && !Used(m, b)
      ensures UsedBlocks(m, s) - {b} == UsedBlocks(m, s)
    {
    }

    lemma UsedHere(b: nat)
      requires b in UsedNow()
      ensures b < mem.Length && !BlkFree(b)
    {
    }

    // mark_block_free and coalesce on a used block.
    method FreeBlock(blk: nat)
      requires State({}) && blk in UsedNow() && blk in blocks && blk < mem.Length
      modifies mem, this`lists, this`blocks
      ensures State({}) && UsedNow() == old(UsedNow()) - {blk} && Keeps(old(mem[..]), mem[..], old(UsedNow()) - {blk})
    {
      hide HeapState, Keeps, UsedBlocks, Outside, PendingJoined, Joined, Tagged;
      ghost var m, u := mem[..], UsedNow();
      Extent(m, brk - 1, blocks, lists, {}, blk);
      NothingJoined(m, brk - 1, blocks, lists, {}, blk);
      JoinOfOneState(m, blocks, blk, blk + BlkSize(blk));
      UsedHere(blk);
      MarkBlock(blk, BlkSize(blk), false, {});
      ghost var m1 := mem[..];
      TaggedAround(m, blk, old(BlkSize(blk)), false);
      assert u - {blk} + {} == u - {blk};
      var b := Coalesce(blk);
      KeepsTransitive(m, m1, mem[..], u - {blk});
    }

    // mm_free: the payload at p is no longer live.
    method MmFree(p: nat)
      requires Valid() && (p == 0 || p in live)
      modifies mem, this`lists, this`blocks, this`live
      ensures Valid() && live == old(live) - {p}
      ensures p == 0 ==> Unchanged(old(mem[..]), old(brk), old(blocks), old(lists), old(live))
      ensures SamePayloads(old(mem[..]), mem[..], old(live.Keys) - {p})
    {
      ghost var m, u := mem[..], UsedNow();
      if p == 0 {
        return;
      }
      assert p in Payloads(u);
      var blk := p - 1;
      assert blk in u && blk in blocks && blk < mem.Length;
      hide HeapState, Keeps, UsedBlocks, LiveMatches, SamePayloads;
      FreeBlock(blk);
      LiveWithout(m, mem[..], u, live, blk);
      live := live - {p};
    }

    // memmove of k words.
    method Memmove(dst: nat, src: nat, k: nat)
      requires src + k <= mem.Length && dst + k <= mem.Length
      modifies mem
      ensures Copied(old(mem[..]), mem[..], src, dst, k) && SameOutside(old(mem[..]), mem[..], dst, dst + k)
    {
      forall i | 0 <= i < k {
        mem[dst + i] := mem[src + i];
      }
    }

    // Case 2 of mm_realloc: the used block b takes in the free block after it.
    // The words of a kept block without its tags are still there.
    lemma KeptInside(m: seq<Word>, m': seq<Word>, u: set<nat>, b: nat)
      requires Keeps(m, m', u) && b in u && b < |m| && 2 <= Size(m, b)
      ensures Copied(m, m', b + 1, b + 1, Size(m, b) - 2)
    {
      hide Keeps;
      KeptBlock(m, m', u, b);
    }

    lemma CopiedOn(m: seq<Word>, m1: seq<Word>, m2: seq<Word>, p: nat, k: nat)
      requires Copied(m, m1, p, p, k) && Copied(m1, m2, p, p, k)
      ensures Copied(m, m2, p, p, k)
    {
    }

    method GrowIntoNext(b: nat, size: nat)
      requires State({}) && b in UsedNow() && b in blocks && b < mem.Length && NextBlk(b) < mem.Length
      requires BlkFree(NextBlk(b)) && size == BlkSize(b) + BlkSize(NextBlk(b))
      modifies mem, this`lists, this`blocks
      ensures State({}) && UsedNow() == old(UsedNow()) && Keeps(old(mem[..]), mem[..], old(UsedNow()) - {b})
      ensures BlkSize(b) == size && b + size < mem.Length
      ensures old(BlkSize(b)) >= 2 && Copied(old(mem[..]), mem[..], b + 1, b + 1, old(BlkSize(b)) - 2)
    {
      hide HeapState, Keeps, UsedBlocks, SameTags, PendingJoined, Outside, Joined, Tagged, Copied;
      ghost var m, u, epi, s, l, n := mem[..], UsedNow(), brk - 1, blocks, lists, NextBlk(b);
      Extent(m, epi, s, l, {}, b);
      FreeAfter(m, epi, s, l, {}, n);
      MarkedBlock(m, s, b);
      assert {} + {n} == {n};
      assert u - {b} + {b} == u;
      RemoveSettled(NextBlk(b), {});
      ghost var m1 := mem[..];
      BoundaryKept(m, m1, epi, s, l, {}, b);
      BoundaryKept(m, m1, epi, s, l, {}, n);
      MarkGrown(b, b, size, {n});
      TaggedAround(m1, b, size, true);
      TaggedKeepsPayload(m1, b, size, b + 1, Size(m, b) - 2);
      KeptInside(m, m1, u, b);
      CopiedOn(m, m1, mem[..], b + 1, Size(m, b) - 2);
      KeepsLess(m, m1, u, u - {b});
      KeepsTransitive(m, m1, mem[..], u - {b});
    }

    // mark_block_used from p, over the used block b and pending ones.
    method MarkGrown(p: nat, b: nat, size: nat, ghost x: set<nat>)
      requires State(x) && p in blocks && p + size in blocks + {brk - 1} && FIRST <= p <= b < p + size
      requires b in blocks && b in UsedNow()
      requires forall c :: c in blocks && p <= c < p + size && c != b ==> c < mem.Length && c in x && BlkFree(c)
      requires forall c :: c in x ==> p <= c < p + size
      modifies mem, this`blocks
      ensures State({}) && UsedNow() == old(UsedNow()) - {b} + {p} && p in blocks && p + size < mem.Length
      ensures Keeps(old(mem[..]), mem[..], old(UsedNow()) - {b})
      ensures size < 0x4000_0000 && mem[..] == Tagged(old(mem[..]), p, size, true)
    {
      GrowthOfOne(mem[..], blocks, x, p, p + size, b);
      hide HeapState, Keeps, PendingJoined, Outside, Joined, UsedBlocks;
      MarkBlock(p, size, true, x);
      MarkedBlock(mem[..], blocks, p);
    }

    // memmove of k words of payload into the used block p, of the given size.
    method MovePayload(p: nat, size: nat, src: nat, k: nat)
      requires State({}) && p in blocks && p in UsedNow() && p < mem.Length && BlkSize(p) == size >= k + 2
      requires src + k <= mem.Length
      modifies mem
      ensures State({}) && UsedNow() == old(UsedNow()) && Keeps(old(mem[..]), mem[..], old(UsedNow()) - {p})
      ensures BlkSize(p) == size && Copied(old(mem[..]), mem[..], src, p + 1, k)
    {
      ghost var m := mem[..];
      BlockExtent(m, brk - 1, blocks, MIN_BLOCK_SIZE_WORDS, p);
      MarkedBlock(m, blocks, p);
      hide HeapState, Keeps, UsedBlocks, SameOutside, Copied;
      Memmove(p + 1, src, k);
      AfterPayloadWrite(m, mem[..], brk - 1, blocks, lists, {}, p, p + 1, p + 1 + k);
    }

    // Marks as MarkGrown does and moves the payload of b, of k words, down to p.
    method MoveDown(p: nat, b: nat, size: nat, k: nat, ghost x: set<nat>)
      requires State(x) && p in blocks && p + size in blocks + {brk - 1} && FIRST <= p < b
      requires b in blocks && b in UsedNow() && b < mem.Length && k + 2 == BlkSize(b) && NextBlk(b) <= p + size
      requires forall c :: c in blocks && p <= c < p + size && c != b ==> c < mem.Length && c in x && BlkFree(c)
      requires forall c :: c in x ==> p <= c < p + size
      modifies mem, this`blocks
      ensures State({}) && UsedNow() == old(UsedNow()) - {b} + {p} && p < mem.Length && BlkSize(p) == size
      ensures Keeps(old(mem[..]), mem[..], old(UsedNow()) - {b}) && Copied(old(mem[..]), mem[..], b + 1, p + 1, k)
    {
      ghost var m, u := mem[..], UsedNow();
      assert p !in u;
      hide HeapState, Keeps, UsedBlocks;
      MarkGrown(p, b, size, x);
      ghost var m1 := mem[..];
      TaggedKeepsPayload(m, p, size, b + 1, k);
      MovePayload(p, size, b + 1, k);
      assert u - {b} + {p} - {p} == u - {b};
      KeepsTransitive(m, m1, mem[..], u - {b});
    }

    lemma MarkedBlock(m: seq<Word>, s: set<nat>, b: nat)
      ensures b in UsedBlocks(m, s) <==> b in s && b < |m| && Used(m, b)
    {
    }

    // Case 1 of mm_realloc: the used block b moves into the free block before it and over itself.
    method GrowIntoPrevious(b: nat, k: nat) returns (p: nat)
      requires State({}) && b in UsedNow() && b in blocks && 0 < b < mem.Length && NextBlk(b) < mem.Length
      requires BlkFree(b - 1) && !BlkFree(NextBlk(b)) && k + 2 == BlkSize(b) && BlkSize(b - 1) <= b
      modifies mem, this`lists, this`blocks
      ensures p == old(PrevBlk(b)) < b
      ensures State({}) && UsedNow() == old(UsedNow()) - {b} + {p} && Keeps(old(mem[..]), mem[..], old(UsedNow()) - {b})
      ensures BlkSize(p) == old(BlkSize(b - 1)) + old(BlkSize(b)) && NextBlk(p) < mem.Length && p !in old(UsedNow())
      ensures Copied(old(mem[..]), mem[..], b + 1, p + 1, k)
    {
      hide HeapState, Keeps, UsedBlocks, SameTags, Joined;
      ghost var m, u, epi, s, l := mem[..], UsedNow(), brk - 1, blocks, lists;
      Extent(m, epi, s, l, {}, b);
      FreeBefore(m, epi, s, l, {}, b);
      p := PrevBlk(b);
      var combinedsize := BlkSize(p) + BlkSize(b);
      assert {} + {p} == {p};
      MarkedBlock(m, s, p);
      RemoveSettled(p, {});
      ghost var m1 := mem[..];
      BoundaryKept(m, m1, epi, s, l, {}, b);
      BoundaryKept(m, m1, epi, s, l, {}, p);
      KeptWords(m, m1, u, b);
      MoveDown(p, b, combinedsize, k, {p});
      KeepsLess(m, m1, u, u - {b});
      KeepsTransitive(m, m1, mem[..], u - {b});
      CopiedTwice(m, m1, mem[..], b, k + 2, p, k);
    }

    lemma CopiedTwice(m: seq<Word>, m1: seq<Word>, m2: seq<Word>, b: nat, size: nat, p: nat, k: nat)
      requires Copied(m, m1, b, b, size) && k + 2 <= size && Copied(m1, m2, b + 1, p + 1, k)
      ensures Copied(m, m2, b + 1, p + 1, k)
    {
      forall w | b + 1 <= w < b + 1 + k ensures m1[w] == m[w] {
        assert m1[b..b + size][w - b] == m[b..b + size][w - b];
      }
      assert m1[b + 1..b + 1 + k] == m[b + 1..b + 1 + k];
    }

    // Case 3 of mm_realloc: the used block b moves into the free block before it and takes in the one after it.
    method GrowIntoBoth(b: nat, k: nat) returns (p: nat)
      requires State({}) && b in UsedNow() && b in blocks && 0 < b < mem.Length && NextBlk(b) < mem.Length
      requires BlkFree(b - 1) && BlkFree(NextBlk(b)) && k + 2 == BlkSize(b) && BlkSize(b - 1) <= b
      modifies mem, this`lists, this`blocks
      ensures p == old(PrevBlk(b)) < b
      ensures State({}) && UsedNow() == old(UsedNow()) - {b} + {p} && Keeps(old(mem[..]), mem[..], old(UsedNow()) - {b})
      ensures BlkSize(p) == old(BlkSize(b - 1)) + old(BlkSize(b)) + old(BlkSize(NextBlk(b))) && NextBlk(p) < mem.Length
      ensures p !in old(UsedNow())
      ensures Copied(old(mem[..]), mem[..], b + 1, p + 1, k)
    {
      hide HeapState, Keeps, UsedBlocks, SameTags, Joined;
      ghost var m, u, epi, s, l := mem[..], UsedNow(), brk - 1, blocks, lists;
      ghost var n := NextBlk(b);
      Extent(m, epi, s, l, {}, b);
      FreeBefore(m, epi, s, l, {}, b);
      FreeAfter(m, epi, s, l, {}, n);
      p := PrevBlk(b);
      var combinedsize := BlkSize(p) + BlkSize(b) + BlkSize(NextBlk(b));
      MarkedBlock(m, s, p);
      RemoveNeighbours(b, p, n);
      ghost var m2 := mem[..];
      BoundaryKept(m, m2, epi, s, l, {}, b);
      BoundaryKept(m, m2, epi, s, l, {}, p);
      BoundaryKept(m, m2, epi, s, l, {}, n);
      KeptWords(m, m2, u, b);
      MoveDown(p, b, combinedsize, k, {p, n});
      KeepsLess(m, m2, u, u - {b});
      KeepsTransitive(m, m2, mem[..], u - {b});
      CopiedTwice(m, m2, mem[..], b, k + 2, p, k);
    }

    method RemoveNeighbours(b: nat, p: nat, ghost n: nat)
      requires State({}) && b in UsedNow() && b in blocks && 0 < b < mem.Length && NextBlk(b) == n < mem.Length
      requires p in blocks && n in blocks && p != n && p < mem.Length && BlkFree(p) && BlkFree(n)
      modifies mem, this`lists
      ensures State({p, n}) && UsedNow() == old(UsedNow())
      ensures SameTags(old(mem[..]), mem[..], brk - 1, blocks) && Keeps(old(mem[..]), mem[..], old(UsedNow()))
    {
      ghost var m, epi, s, l := mem[..], brk - 1, blocks, lists;
      assert {} + {p} == {p} && {p} + {n} == {p, n};
      hide HeapState, Keeps, UsedBlocks, SameTags;
      RemoveSettled(p, {});
      ghost var m1 := mem[..];
      BoundaryKept(m, m1, epi, s, l, {}, b);
      BoundaryKept(m, m1, epi, s, l, {}, n);
      RemoveSettled(NextBlk(b), {p});
      KeepsTransitive(m, m1, mem[..], old(UsedNow()));
      SameTagsTransitive(m, m1, mem[..], epi, s);
    }

    // Case 5 of mm_realloc: the used block b, the last, takes in newly got memory.
    method GrowAtEnd(b: nat, size: nat) returns (ok: bool)
      requires State({}) && b in UsedNow() && b in blocks && b < mem.Length && NextBlk(b) == brk - 1
      requires BlkSize(b) < size && size % 4 == 0 && !GetsLess(brk, size - BlkSize(b))
      requires BlkSize(b) + MIN_BLOCK_SIZE_WORDS <= size || CannotExtend(size - BlkSize(b))
      modifies this`brk, mem, this`lists, this`blocks
      ensures !ok <==> old(brk) + size - old(BlkSize(b)) > HEAP_MAX || (size - old(BlkSize(b))) * WSIZE > INT_MAX
      ensures !ok ==>
        State({}) && mem[..] == old(mem[..]) && brk == old(brk) && blocks == old(blocks) && lists == old(lists)
      ensures ok ==>
        && State({}) && UsedNow() == old(UsedNow()) && Keeps(old(mem[..]), mem[..], old(UsedNow()) - {b})
        && BlkSize(b) == size && b + size < mem.Length && brk == old(brk) + size - old(BlkSize(b))
        && old(BlkSize(b)) >= 2 && Copied(old(mem[..]), mem[..], b + 1, b + 1, old(BlkSize(b)) - 2)
    {
      hide State, HeapState, Keeps, UsedBlocks, SameTags, Joined, GetsLess, Copied;
      ghost var m, u, epi := mem[..], UsedNow(), brk - 1;
      ReadExtent(b);
      var r := ExtendHeap(size - BlkSize(b));
      if r == 0 {
        return false;
      }
      ghost var m1 := mem[..];
      KeptWords(m, m1, u, b);
      ExtensionAlone(b, r, epi);
      GrowIntoNext(b, size);
      KeepsLess(m, m1, u, u - {b});
      KeepsTransitive(m, m1, mem[..], u - {b});
      CopiedTwice(m, m1, mem[..], b, Size(m, b), b, Size(m, b) - 2);
      ok := true;
    }

    lemma ExtensionAlone(b: nat, r: nat, epi: nat)
      requires State({}) && b in UsedNow() && r in blocks && b < mem.Length && r < mem.Length
      requires BlkFree(r) && NextBlk(b) == epi && r <= epi < NextBlk(r)
      ensures r == epi && b in blocks && b != r
    {
      BlocksDisjoint(mem[..], brk - 1, blocks, MIN_BLOCK_SIZE_WORDS, b, r);
      ReadExtent(b);
    }

    lemma LiveBlock(p: nat)
      requires Valid() && p in live
      ensures 0 < p && p - 1 in UsedNow() && p - 1 in blocks && p - 1 < mem.Length && NextBlk(p - 1) < brk
      ensures MIN_BLOCK_SIZE_WORDS <= BlkSize(p - 1) && BlkSize(p - 1) % 4 == 0
      ensures live[p] + 2 * WSIZE <= BlkSize(p - 1) * WSIZE
      ensures |PayloadOf(mem[..], p)| + 2 == BlkSize(p - 1)
    {
      assert p in Payloads(UsedNow());
      BlockExtent(mem[..], brk - 1, blocks, MIN_BLOCK_SIZE_WORDS, p - 1);
    }

    // A request that needs a larger block has more bytes than the payload of the smaller one.
    lemma LargerRequest(size: nat, words: nat)
      requires 0 < size < SIZE_VALUES && !Overflows(size) && words % 4 == 0
      requires MIN_BLOCK_SIZE_WORDS <= words < BlockWords(size)
      ensures size > words * WSIZE - 2 * WSIZE
    {
      BlockWordsSuffice(size);
    }

    // memcpy into the live payload p of what the one at ptr and size bytes have in common.
    method CopyInto(p: nat, ptr: nat, size: nat)
      requires Valid() && p in live && ptr in live && p != ptr && 0 < p <= mem.Length && 0 < ptr <= mem.Length
      requires BlkSize(ptr - 1) * WSIZE < size + 2 * WSIZE && BlkSize(ptr - 1) <= BlkSize(p - 1)
      modifies mem
      ensures Valid()
      ensures SamePayloads(old(mem[..]), mem[..], live.Keys - {p}) && PayloadKept(old(mem[..]), mem[..], ptr, p)
      ensures BlkSize(p - 1) == old(BlkSize(p - 1))
    {
      hide HeapState, Keeps, UsedBlocks, LiveMatches, Copied, SamePayloads, PayloadOf, PayloadKept;
      ghost var m, u := mem[..], UsedNow();
      LiveBlock(p);
      LiveBlock(ptr);
      var oldpayloadsize := BlkSize(ptr - 1) * WSIZE - 2 * WSIZE;
      if size < oldpayloadsize {
        oldpayloadsize := size;
      }
      MovePayload(p - 1, BlkSize(p - 1), ptr, oldpayloadsize / WSIZE);
      StillLiveBut(m, mem[..], u, live, p - 1);
      CopiedPayload(m, mem[..], ptr, p, Size(m, ptr - 1) - 2);
      KeepsOthers(m, mem[..], u, live, p - 1);
    }

    lemma CopiedPayload(m: seq<Word>, m': seq<Word>, p: nat, p': nat, k: nat)
      requires 0 < p <= |m| && 0 < p' <= |m'| && Size(m, p - 1) == k + 2 <= Size(m', p' - 1)
      requires p' + Size(m', p' - 1) - 2 <= |m'| && Copied(m, m', p, p', k)
      ensures PayloadKept(m, m', p, p')
    {
    }

    lemma FewerPayloads(m: seq<Word>, m': seq<Word>, ps: set<nat>, qs: set<nat>)
      requires SamePayloads(m, m', ps) && qs <= ps
      ensures SamePayloads(m, m', qs)
    {
    }

    lemma SameSizes(m: seq<Word>, m': seq<Word>, ps: set<nat>, p: nat)
      requires SamePayloads(m, m', ps) && p in ps
      ensures |PayloadOf(m', p)| == |PayloadOf(m, p)|
    {
    }

    lemma PayloadsThrough(m: seq<Word>, m1: seq<Word>, m2: seq<Word>, m3: seq<Word>, ps: set<nat>, p: nat, p': nat)
      requires SamePayloads(m, m1, ps) && SamePayloads(m1, m2, ps + {p'} - {p'})
      requires SamePayloads(m2, m3, ps + {p'} - {p})
      requires p in ps && p' !in ps && PayloadKept(m1, m2, p, p')
      ensures SamePayloads(m, m3, ps - {p}) && PayloadKept(m, m3, p, p')
    {
    }

    // Case 4 of mm_realloc: a new block, a copy, and the old block freed.
    method MallocCopyFree(ptr: nat, size: nat) returns (p: nat)
      requires Valid() && ptr in live && 0 < ptr <= mem.Length && 0 < size < SIZE_VALUES && !Overflows(size)
      requires BlkSize(ptr - 1) < BlockWords(size) && !GetsLess(brk, Max(BlockWords(size), CHUNKSIZE))
      modifies this, mem
      ensures Valid()
      ensures p == 0 <==> old(|lists| == FREE_LISTS_SIZE && OutOfMemory(size))
      ensures p == 0 ==> Unchanged(old(mem[..]), old(brk), old(blocks), old(lists), old(live))
      ensures p != 0 ==> p !in old(live) && Moved(old(mem[..]), old(live), ptr, size, p)
      ensures old(|lists| == FREE_LISTS_SIZE)
      ensures p != 0 ==>
        var found := old(FitFor(mem[..], lists, BlockWords(size)));
        if found != 0 then p == found + 1 && brk == old(brk)
        else p <= old(brk) && brk == old(brk) + Max(BlockWords(size), CHUNKSIZE)
      ensures p != 0 ==> p <= mem.Length && BlockWords(size) <= BlkSize(p - 1) < BlockWords(size) + MIN_BLOCK_SIZE_WORDS
      ensures p != 0 && p < ptr ==> p + BlockWords(size) <= ptr
    {
      hide Valid, State, BlockWords, Overflows, GetsLess, OutOfMemory, Unchanged, PayloadOf, PayloadKept, SamePayloads;
      ghost var m, v := mem[..], live;
      LiveBlock(ptr);
      LargerRequest(size, BlkSize(ptr - 1));
      p := MmMalloc(size);
      FewerPayloads(m, mem[..], v.Keys, v.Keys - {ptr});
      if p != 0 {
        assert ptr in v.Keys && live.Keys == v.Keys + {p};
        LiveBlock(p);
        LiveBlock(ptr);
        ghost var m1 := mem[..];
        SameSizes(m, m1, v.Keys, ptr);
        PayloadsBeside(p, ptr);
        CopyInto(p, ptr, size);
        ghost var m2 := mem[..];
        LiveBlock(p);
        MmFree(ptr);
        LiveBlock(p);
        SameSizes(m2, mem[..], v.Keys + {p} - {ptr}, p);
        PayloadsThrough(m, m1, m2, mem[..], v.Keys, ptr, p);
      }
    }

    lemma PayloadsBeside(p: nat, q: nat)
      requires Valid() && p in live && q in live && p != q && 0 < p <= mem.Length
      ensures p < q ==> p + BlkSize(p - 1) <= q
    {
      hide HeapState, LiveMatches, UsedBlocks;
      LiveBlock(p);
      LiveBlock(q);
      Beside(mem[..], brk - 1, blocks, lists, p - 1, q - 1);
    }

    lemma Beside(m: seq<Word>, epi: nat, s: set<nat>, lists: seq<seq<nat>>, b: nat, c: nat)
      requires HeapState(m, epi, s, lists, {}) && b in s && c in s && b != c && b < |m|
      ensures b < c ==> b + Size(m, b) <= c
    {
      BlocksDisjoint(m, epi, s, MIN_BLOCK_SIZE_WORDS, b, c);
    }

    // The client sets the first n bytes of the live payload p to b.
    method Fill(p: nat, n: nat, b: Byte)
      requires Valid() && p in live && n <= live[p]
      modifies mem
      ensures Valid() && SamePayloads(old(mem[..]), mem[..], live.Keys - {p})
      ensures Filled(mem[..], p, n, b)
    {
      hide HeapState, Keeps, UsedBlocks, LiveMatches, SamePayloads, SameOutside, PayloadOf, Filled, WordsFor;
      LiveBlock(p);
      BytesFit(n, BlkSize(p - 1));
      ghost var m, u := mem[..], UsedNow();
      Memset(p, n, b);
      AfterFill(m, mem[..], brk - 1, blocks, lists, live, p, WordsFor(n));
    }

    lemma BytesFit(n: nat, size: nat)
      requires n + 2 * WSIZE <= size * WSIZE
      ensures WordsFor(n) + 2 <= size
    {
    }

    lemma AfterFill(m: seq<Word>, m': seq<Word>, epi: nat, s: set<nat>, lists: seq<seq<nat>>, live: map<nat, nat>,
                    p: nat, k: nat)
      requires HeapState(m, epi, s, lists, {}) && LiveMatches(m, UsedBlocks(m, s), live)
      requires 0 < p <= |m| && p - 1 in UsedBlocks(m, s) && k + 2 <= Size(m, p - 1) && SameOutside(m, m', p, p + k)
      ensures HeapState(m', epi, s, lists, {}) && LiveMatches(m', UsedBlocks(m', s), live)
      ensures SamePayloads(m, m', live.Keys - {p})
    {
      MarkedBlock(m, s, p - 1);
      hide HeapState, Keeps, UsedBlocks, LiveMatches, SamePayloads, SameOutside, PayloadOf;
      AfterPayloadWrite(m, m', epi, s, lists, {}, p - 1, p, p + k);
      StillLiveBut(m, m', UsedBlocks(m, s), live, p - 1);
      KeepsOthers(m, m', UsedBlocks(m, s), live, p - 1);
    }

    method Memset(p: nat, n: nat, b: Byte)
      requires p + WordsFor(n) <= mem.Length
      modifies mem
      ensures SameOutside(old(mem[..]), mem[..], p, p + WordsFor(n)) && Filled(mem[..], p, n, b)
    {
      ghost var m := mem[..];
      var j := 0;
      while j < n
        invariant 0 <= j <= n && SameOutside(m, mem[..], p, p + WordsFor(n))
        invariant forall i :: 0 <= i < j ==> ByteAt(mem[..], p, i) == b
      {
        SetByteAt(mem, p, j, b);
        j := j + 1;
      }
    }

    // How mm_realloc provides a block of the given words for the used block b.
    function Growth(b: nat, words: nat): GrowthCase
      reads mem
    {
      GrowthIn(mem[..], b, words)
    }

    // The payload at ptr, of size bytes now, has moved to r; other payloads are as they were.
    ghost predicate Moved(m: seq<Word>, v: map<nat, nat>, ptr: nat, size: nat, r: nat)
      reads this, mem
    {
      && 0 < r && (r == ptr || r !in v) && live == (v - {ptr})[r := size]
      && PayloadKept(m, mem[..], ptr, r) && SamePayloads(m, mem[..], v.Keys - {ptr})
    }

    lemma Relive(m: seq<Word>, m': seq<Word>, u: set<nat>, live: map<nat, nat>, b: nat, p: nat, size: nat)
      requires LiveMatches(m, u, live) && Keeps(m, m', u - {b}) && b in u && (p == b || p !in u) && p < |m'|
      requires 0 < size < SIZE_VALUES && !Overflows(size) && Size(m', p) >= BlockWords(size)
      ensures LiveMatches(m', u - {b} + {p}, (live - {b + 1})[p + 1 := size])
      ensures p == b || p + 1 !in live
      ensures SamePayloads(m, m', live.Keys - {b + 1})
    {
      hide Keeps, PayloadOf, BlockWords, Overflows, Payloads;
      KeepsPayloads(m, m', u - {b});
      BlockWordsSuffice(size);
      OtherPayloads(u, b, p);
      forall q | q in live - {b + 1} ensures 0 < q <= |m'| && live[q] + 8 <= 4 * Size(m', q - 1) {
        InPayloads(u, q);
        assert q - 1 in u - {b};
      }
    }

    method ReallocIntoNext(ptr: nat, size: nat) returns (r: nat)
      requires Valid() && ptr in live && 0 < ptr <= mem.Length && 0 < size < SIZE_VALUES && !Overflows(size)
      requires Growth(ptr - 1, BlockWords(size)) == IntoNext
      modifies mem, this`lists, this`blocks, this`live
      ensures Valid() && r == ptr > 0 && Moved(old(mem[..]), old(live), ptr, size, r)
      ensures BlkSize(r - 1) == old(BlkSize(ptr - 1) + BlkSize(NextBlk(ptr - 1)))
    {
      hide HeapState, Keeps, UsedBlocks, LiveMatches, Copied, SamePayloads, PayloadOf, PayloadKept, BlockWords,
           Overflows;
      ghost var m, u, b := mem[..], UsedNow(), ptr - 1;
      LiveBlock(ptr);
      var combinedsize := BlkSize(ptr - 1) + BlkSize(NextBlk(ptr - 1));
      GrowIntoNext(ptr - 1, combinedsize);
      Relive(m, mem[..], u, live, b, b, size);
      CopiedPayload(m, mem[..], ptr, ptr, Size(m, b) - 2);
      assert u - {b} + {b} == u;
      live := (live - {ptr})[ptr := size];
      r := ptr;
    }

    method ReallocIntoPrevious(ptr: nat, size: nat) returns (r: nat)
      requires Valid() && ptr in live && 0 < ptr <= mem.Length && 0 < size < SIZE_VALUES && !Overflows(size)
      requires Growth(ptr - 1, BlockWords(size)) == IntoPrevious
      modifies mem, this`lists, this`blocks, this`live
      ensures Valid() && 0 < r < ptr && r == old(ptr - 1 - BackSize(ptr - 1)) + 1
      ensures BlkSize(r - 1) == old(BackSize(ptr - 1) + BlkSize(ptr - 1))
      ensures Moved(old(mem[..]), old(live), ptr, size, r)
    {
      hide HeapState, Keeps, UsedBlocks, LiveMatches, Copied, SamePayloads, PayloadOf, PayloadKept, BlockWords,
           Overflows;
      ghost var m, u, b := mem[..], UsedNow(), ptr - 1;
      LiveBlock(ptr);
      FreeBefore(m, brk - 1, blocks, lists, {}, b);
      var payload := BlkSize(ptr - 1) - 2;
      var p := GrowIntoPrevious(ptr - 1, payload);
      Relive(m, mem[..], u, live, b, p, size);
      CopiedPayload(m, mem[..], ptr, p + 1, Size(m, b) - 2);
      live := (live - {ptr})[p + 1 := size];
      r := p + 1;
    }

    method ReallocIntoBoth(ptr: nat, size: nat) returns (r: nat)
      requires Valid() && ptr in live && 0 < ptr <= mem.Length && 0 < size < SIZE_VALUES && !Overflows(size)
      requires Growth(ptr - 1, BlockWords(size)) == IntoBoth
      modifies mem, this`lists, this`blocks, this`live
      ensures Valid() && 0 < r < ptr && r == old(ptr - 1 - BackSize(ptr - 1)) + 1
      ensures BlkSize(r - 1) == old(BackSize(ptr - 1) + BlkSize(ptr - 1) + BlkSize(NextBlk(ptr - 1)))
      ensures Moved(old(mem[..]), old(live), ptr, size, r)
    {
      hide HeapState, Keeps, UsedBlocks, LiveMatches, Copied, SamePayloads, PayloadOf, PayloadKept, BlockWords,
           Overflows;
      ghost var m, u, b := mem[..], UsedNow(), ptr - 1;
      LiveBlock(ptr);
      FreeBefore(m, brk - 1, blocks, lists, {}, b);
      var payload := BlkSize(ptr - 1) - 2;
      var p := GrowIntoBoth(ptr - 1, payload);
      Relive(m, mem[..], u, live, b, p, size);
      CopiedPayload(m, mem[..], ptr, p + 1, Size(m, b) - 2);
      live := (live - {ptr})[p + 1 := size];
      r := p + 1;
    }

    method ReallocAtEnd(ptr: nat, size: nat) returns (r: nat)
      requires Valid() && ptr in live && 0 < ptr <= mem.Length && 0 < size < SIZE_VALUES && !Overflows(size)
      requires Growth(ptr - 1, BlockWords(size)) == AtEnd
      requires BlkSize(ptr - 1) < BlockWords(size) && !GetsLess(brk, BlockWords(size) - BlkSize(ptr - 1))
      requires BlkSize(ptr - 1) + MIN_BLOCK_SIZE_WORDS <= BlockWords(size)
        || CannotExtend(BlockWords(size) - BlkSize(ptr - 1))
      modifies this, mem
      ensures Valid()
      ensures r == 0 <==> old(CannotExtend(BlockWords(size) - BlkSize(ptr - 1)))
      ensures r == 0 ==> Unchanged(old(mem[..]), old(brk), old(blocks), old(lists), old(live))
      ensures r != 0 ==> r == ptr && Moved(old(mem[..]), old(live), ptr, size, r)
      ensures r != 0 ==>
        BlkSize(r - 1) == BlockWords(size) && brk == old(brk) + BlockWords(size) - old(BlkSize(ptr - 1))
    {
      hide HeapState, Keeps, UsedBlocks, LiveMatches, Copied, SamePayloads, PayloadOf, PayloadKept, BlockWords,
           Overflows, GetsLess;
      ghost var m, u, b := mem[..], UsedNow(), ptr - 1;
      LiveBlock(ptr);
      EpilogueOnly(b);
      var newblocksize := BlockWords(size);
      var ok := GrowAtEnd(ptr - 1, newblocksize);
      if !ok {
        return 0;
      }
      Relive(m, mem[..], u, live, b, b, size);
      CopiedPayload(m, mem[..], ptr, ptr, Size(m, b) - 2);
      assert u - {b} + {b} == u;
      live := (live - {ptr})[ptr := size];
      r := ptr;
    }

    // The branch where the block is large enough already.
    method ReallocEnough(ptr: nat, ghost size: nat) returns (r: nat)
      requires Valid() && ptr in live && 0 < ptr <= mem.Length && 0 < size < SIZE_VALUES && !Overflows(size)
      requires Growth(ptr - 1, BlockWords(size)) == Enough
      modifies this`live
      ensures Valid() && r == ptr > 0 && Moved(old(mem[..]), old(live), ptr, size, r)
    {
      hide HeapState, UsedBlocks, PayloadOf, PayloadKept, LiveMatches, SamePayloads, BlockWords, Overflows, GrowthIn;
      LargeEnough(ptr, size);
      StillEnough(mem[..], UsedNow(), live, ptr, size);
      live := (live - {ptr})[ptr := size];
      r := ptr;
    }

    lemma LargeEnough(ptr: nat, size: nat)
      requires Valid() && ptr in live && ptr <= mem.Length && Growth(ptr - 1, BlockWords(size)) == Enough
      ensures BlockWords(size) <= BlkSize(ptr - 1)
    {
      LiveBlock(ptr);
      FooterBefore(ptr - 1);
    }

    lemma StillEnough(m: seq<Word>, u: set<nat>, live: map<nat, nat>, ptr: nat, size: nat)
      requires LiveMatches(m, u, live) && ptr in live && 0 < ptr <= |m|
      requires 0 < size < SIZE_VALUES && !Overflows(size) && BlockWords(size) <= Size(m, ptr - 1)
      ensures LiveMatches(m, u, (live - {ptr})[ptr := size])
      ensures PayloadKept(m, m, ptr, ptr) && SamePayloads(m, m, live.Keys - {ptr})
    {
      BlockWordsSuffice(size);
    }

    // The heap cannot be made larger by this many words.
    predicate CannotExtend(words: nat)
      reads this
    {
      brk + words > HEAP_MAX || words * WSIZE > INT_MAX
    }

    // A block of no words is the epilogue.
    lemma EpilogueOnly(b: nat)
      requires State({}) && b in blocks && b < mem.Length && NextBlk(b) < mem.Length && BlkSize(NextBlk(b)) == 0
      ensures NextBlk(b) == brk - 1
    {
      ReadExtent(b);
      BlockExtent(mem[..], brk - 1, blocks, MIN_BLOCK_SIZE_WORDS, b);
      if NextBlk(b) in blocks {
        BlockExtent(mem[..], brk - 1, blocks, MIN_BLOCK_SIZE_WORDS, NextBlk(b));
      }
    }

    // What the code gets right: not a request that gets less memory than it asks for, nor a growth at the end of
    // the heap by less than a block, if there is the memory for it.
    predicate Manageable(ptr: nat, size: nat)
      requires ptr <= mem.Length
      reads this, mem
    {
      if size == 0 || Overflows(size) then true
      else if ptr == 0 then !GetsLess(brk, Max(BlockWords(size), CHUNKSIZE))
      else match Growth(ptr - 1, BlockWords(size))
        case AtEnd =>
          var growth := BlockWords(size) - BlkSize(ptr - 1);
          (growth >= MIN_BLOCK_SIZE_WORDS || CannotExtend(growth)) && growth > 0 && !GetsLess(brk, growth)
        case Elsewhere => !GetsLess(brk, Max(BlockWords(size), CHUNKSIZE))
        case _ => true
    }

    // There is no memory for the block that the request needs.
    ghost predicate ReallocFails(ptr: nat, size: nat)
      requires |lists| == FREE_LISTS_SIZE && 0 < ptr <= mem.Length
      reads this, mem
    {
      match Growth(ptr - 1, BlockWords(size))
      case AtEnd => CannotExtend(BlockWords(size) - BlkSize(ptr - 1))
      case Elsewhere => OutOfMemory(size)
      case _ => false
    }

    // Where the payload is after its block has grown in the given way.
    ghost predicate GrownAt(g: GrowthCase, ptr: nat, r: nat, previous: nat, v: map<nat, nat>) {
      match g
      case Enough | IntoNext | AtEnd => r == ptr
      case IntoPrevious | IntoBoth => r == previous + 1 && r < ptr
      case Elsewhere => r !in v
    }

    // The words of the block with the payload at r.
    ghost function SizeOf(r: nat): nat
      reads mem
    {
      if 0 < r <= mem.Length then BlkSize(r - 1) else 0
    }

    // The size that the used block b gets from its neighbours in the given way.
    ghost function SizeGrown(g: GrowthCase, b: nat): nat
      requires b < mem.Length && NextBlk(b) < mem.Length
      reads mem
    {
      match g
      case IntoNext => BlkSize(b) + BlkSize(NextBlk(b))
      case IntoPrevious => BackSize(b) + BlkSize(b)
      case IntoBoth => BackSize(b) + BlkSize(b) + BlkSize(NextBlk(b))
      case _ => BlkSize(b)
    }

    // mm_realloc for a payload and a size that can be had.
    method Reallocate(ptr: nat, size: nat) returns (r: nat)
      requires Valid() && ptr in live && 0 < ptr <= mem.Length && 0 < size < SIZE_VALUES && !Overflows(size)
      requires Manageable(ptr, size)
      modifies this, mem
      ensures Valid()
      ensures r == 0 <==> old(|lists| == FREE_LISTS_SIZE && ReallocFails(ptr, size))
      ensures r == 0 ==> Unchanged(old(mem[..]), old(brk), old(blocks), old(lists), old(live))
      ensures r != 0 ==> Moved(old(mem[..]), old(live), ptr, size, r)
      ensures r != 0 ==>
        GrownAt(old(Growth(ptr - 1, BlockWords(size))), ptr, r, old(ptr - 1 - BackSize(ptr - 1)), old(live))
      ensures ByTags(old(mem[..]), old(brk), old(lists), ptr, BlockWords(size), r, brk, SizeOf(r))
    {
      hide ByTags, Valid, State, HeapState, Keeps, UsedBlocks, LiveMatches, Copied, SamePayloads, PayloadOf,
           PayloadKept,
           BlockWords, Overflows, GetsLess, OutOfMemory, Unchanged, Moved, GrowthIn, ReallocFails, GrownAt, Manageable,
           ProvidedAt, FitFor;
      ghost var m, s, l, end := mem[..], blocks, lists, brk;
      ghost var v, previous := live, ptr - 1 - BackSize(ptr - 1);
      ValidState();
      InOrderNow();
      LiveBlock(ptr);
      FailsByGrowth(ptr, size);
      var g := ChooseGrowth(ptr - 1, BlockWords(size));
      match g {
        case AtEnd =>
          r := ReallocAtEnd(ptr, size);
          AtEndByTags(m, end, s, l, ptr, BlockWords(size), r, brk, SizeOf(r));
        case Elsewhere =>
          WhenOutOfMemory(size);
          r := MallocCopyFree(ptr, size);
          LikeMalloc(FitFor(m, l, BlockWords(size)), end, BlockWords(size), r, brk, SizeOf(r));
          ElsewhereByTags(m, end, s, l, ptr, BlockWords(size), r, brk, SizeOf(r));
        case _ => r := ReallocInPlace(ptr, size, g);
      }
      PlaceByGrowth(g, ptr, r, previous, v);
    }

    lemma InOrderNow()
      requires State({})
      ensures 0 < brk && HeapState(mem[..], brk - 1, blocks, lists, {}) && UsedNow() == UsedBlocks(mem[..], blocks)
    {
    }

    lemma WhenOutOfMemory(size: nat)
      requires |lists| == FREE_LISTS_SIZE
      ensures OutOfMemory(size) <==>
        && FitFor(mem[..], lists, BlockWords(size)) == 0
        && (brk + Max(BlockWords(size), CHUNKSIZE) > HEAP_MAX || Max(BlockWords(size), CHUNKSIZE) * WSIZE > INT_MAX)
    {
    }

    lemma LikeMalloc(c: nat, end: nat, words: nat, r: nat, end': nat, size: nat)
      requires r == 0 <==>
        c == 0 && (end + Max(words, CHUNKSIZE) > HEAP_MAX || Max(words, CHUNKSIZE) * WSIZE > INT_MAX)
      requires r != 0 ==> words <= size < words + MIN_BLOCK_SIZE_WORDS
      requires r != 0 ==>
        if c != 0 then r == c + 1 && end' == end else r <= end && end' == end + Max(words, CHUNKSIZE)
      ensures ProvidedAt(c, end, words, r, end', size)
    {
    }

    lemma ValidState()
      requires Valid()
      ensures State({}) && |lists| == FREE_LISTS_SIZE && mem.Length == HEAP_MAX
    {
    }

    // What reallocation needs and when it fails, case by case.
    lemma FailsByGrowth(ptr: nat, size: nat)
      requires |lists| == FREE_LISTS_SIZE && 0 < ptr <= mem.Length && size != 0 && !Overflows(size)
      ensures match Growth(ptr - 1, BlockWords(size))
        case AtEnd =>
          && (ReallocFails(ptr, size) <==> CannotExtend(BlockWords(size) - BlkSize(ptr - 1)))
          && (Manageable(ptr, size) ==>
            && BlkSize(ptr - 1) < BlockWords(size)
            && (BlkSize(ptr - 1) + MIN_BLOCK_SIZE_WORDS <= BlockWords(size)
                || CannotExtend(BlockWords(size) - BlkSize(ptr - 1)))
            && !GetsLess(brk, BlockWords(size) - BlkSize(ptr - 1)))
        case Elsewhere =>
          && BlkSize(ptr - 1) < BlockWords(size) && (ReallocFails(ptr, size) <==> OutOfMemory(size))
          && (Manageable(ptr, size) ==> !GetsLess(brk, Max(BlockWords(size), CHUNKSIZE)))
        case _ => !ReallocFails(ptr, size)
    {
    }

    lemma PlaceByGrowth(g: GrowthCase, ptr: nat, r: nat, previous: nat, v: map<nat, nat>)
      ensures (g == AtEnd && r == ptr) || (g == Elsewhere && r !in v) ==> GrownAt(g, ptr, r, previous, v)
    {
    }

    method ReallocInPlace(ptr: nat, size: nat, g: GrowthCase) returns (r: nat)
      requires Valid() && ptr in live && 0 < ptr <= mem.Length && 0 < size < SIZE_VALUES && !Overflows(size)
      requires g == Growth(ptr - 1, BlockWords(size)) && g != AtEnd && g != Elsewhere && NextBlk(ptr - 1) < mem.Length
      modifies mem, this`lists, this`blocks, this`live
      ensures Valid() && 0 < r && Moved(old(mem[..]), old(live), ptr, size, r)
      ensures GrownAt(g, ptr, r, old(ptr - 1 - BackSize(ptr - 1)), old(live))
      ensures r <= mem.Length && BlkSize(r - 1) == old(SizeGrown(g, ptr - 1))
      ensures ByTags(old(mem[..]), brk, old(lists), ptr, BlockWords(size), r, brk, SizeOf(r))
    {
      hide ByTags, HeapState, UsedBlocks, LiveMatches, Moved, BlockWords, Overflows, GrowthIn;
      ghost var m, s, l := mem[..], blocks, lists;
      LiveBlock(ptr);
      InOrderNow();
      GrowthOnTags(m, brk - 1, s, l, ptr - 1, BlockWords(size));
      match g {
        case Enough => r := ReallocEnough(ptr, size);
        case IntoNext => r := ReallocIntoNext(ptr, size);
        case IntoPrevious => r := ReallocIntoPrevious(ptr, size);
        case IntoBoth => r := ReallocIntoBoth(ptr, size);
      }
      InPlaceByTags(m, brk, s, l, ptr, BlockWords(size), r, SizeOf(r));
    }

    // The tests of mm_realloc, in their order.
    method ChooseGrowth(oldblock: nat, newblocksize: nat) returns (g: GrowthCase)
      requires State({}) && oldblock in blocks && oldblock in UsedNow()
      ensures g == Growth(oldblock, newblocksize)
    {
      ReadExtent(oldblock);
      FooterBefore(oldblock);
      hide HeapState, UsedBlocks;
      var oldblocksize := BlkSize(oldblock);
      var prevAlloc, nextAlloc := mem[oldblock - 1] % 2 == 1, !BlkFree(NextBlk(oldblock));
      if newblocksize <= oldblocksize {
        return Enough;
      } else if prevAlloc && !nextAlloc && oldblocksize + BlkSize(NextBlk(oldblock)) >= newblocksize {
        return IntoNext;
      } else if !prevAlloc && nextAlloc && BlkSize(PrevBlk(oldblock)) + oldblocksize >= newblocksize {
        return IntoPrevious;
      } else if !prevAlloc && !nextAlloc
          && BlkSize(PrevBlk(oldblock)) + oldblocksize + BlkSize(NextBlk(oldblock)) >= newblocksize {
        return IntoBoth;
      } else if BlkSize(NextBlk(oldblock)) == 0 {
        return AtEnd;
      }
      return Elsewhere;
    }

    lemma FooterBefore(b: nat)
      requires State({}) && b in blocks
      ensures 0 < b < mem.Length && mem[b - 1] / 2 <= b
    {
      ReadExtent(b);
      assert b != FIRST ==> FollowsBlock(mem[..], blocks, b);
    }

    // The size in the footer before block b, when the block before it is free.
    ghost function BackSize(b: nat): nat
      requires b < mem.Length
      reads mem
    {
      if 0 < b && !Used(mem[..], b - 1) && Size(mem[..], b - 1) <= b then Size(mem[..], b - 1) else 0
    }

    // mm_realloc: the new address of the payload at ptr, which then has size bytes; 0 for NULL.
    method MmRealloc(ptr: nat, size: nat) returns (r: nat)
      requires Valid() && size < SIZE_VALUES && (ptr == 0 || ptr in live) && ptr <= mem.Length && Manageable(ptr, size)
      modifies this, mem
      ensures Valid()
      ensures r == 0 <==>
        || size == 0 || Overflows(size)
        || old(|lists| == FREE_LISTS_SIZE && if ptr == 0 then OutOfMemory(size) else ReallocFails(ptr, size))
      ensures size == 0 ==> live == old(live) - {ptr} && SamePayloads(old(mem[..]), mem[..], old(live.Keys) - {ptr})
      ensures size != 0 && r == 0 ==> Unchanged(old(mem[..]), old(brk), old(blocks), old(lists), old(live))
      ensures r != 0 && ptr == 0 ==>
        r !in old(live) && live == old(live)[r := size] && SamePayloads(old(mem[..]), mem[..], old(live.Keys))
      ensures r != 0 && ptr != 0 ==> Moved(old(mem[..]), old(live), ptr, size, r)
      ensures r != 0 && ptr != 0 ==>
        GrownAt(old(Growth(ptr - 1, BlockWords(size))), ptr, r, old(ptr - 1 - BackSize(ptr - 1)), old(live))
      ensures size != 0 && ptr != 0 && !Overflows(size) ==>
        ByTags(old(mem[..]), old(brk), old(lists), ptr, BlockWords(size), r, brk, SizeOf(r))
    {
      assert |lists| == FREE_LISTS_SIZE;
      hide ByTags, HeapState, LiveMatches, SamePayloads, BlockWords, GetsLess, OutOfMemory, Moved, Align, UsedBlocks,
           GrownAt, ReallocFails, Growth;
      if size == 0 {
        MmFree(ptr);
        return 0;
      }
      if ptr == 0 {
        r := MmMalloc(size);
        return;
      }
      if Align((size + 2 * WSIZE) % SIZE_VALUES) < size {
        return 0;
      }
      hide Overflows;
      r := Reallocate(ptr, size);
    }
  }

  datatype GrowthCase = Enough | IntoNext | IntoPrevious | IntoBoth | AtEnd | Elsewhere

  // The branch that mm_realloc takes for the used block b and a new size in words.
  function GrowthIn(m: seq<Word>, b: nat, words: nat): GrowthCase {
    if !(0 < b < |m| && b + Size(m, b) < |m| && Size(m, b - 1) <= b) then Enough
    else
      var n, p := b + Size(m, b), b - Size(m, b - 1);
      var previousFree, nextFree := !Used(m, b - 1), !Used(m, n);
      if words <= Size(m, b) then Enough
      else if !previousFree && nextFree && Size(m, b) + Size(m, n) >= words then IntoNext
      else if previousFree && !nextFree && Size(m, p) + Size(m, b) >= words then IntoPrevious
      else if previousFree && nextFree && Size(m, p) + Size(m, b) + Size(m, n) >= words then IntoBoth
      else if Size(m, n) == 0 then AtEnd
      else Elsewhere
  }

  // ----- mm_realloc by the tags around the block -----

  // The block b has so many words, or has them with the free block after it, when the one before it is used.
  ghost predicate StaysPut(m: seq<Word>, b: nat, words: nat)
    requires 0 < b < |m| && b + Size(m, b) < |m|
  {
    var n := b + Size(m, b);
    words <= Size(m, b) || (Used(m, b - 1) && !Used(m, n) && words <= Size(m, b) + Size(m, n))
  }

  // It has not, but has them with the free block before it and the one after it, if that is free too.
  ghost predicate MovesDown(m: seq<Word>, b: nat, words: nat)
    requires 0 < b < |m| && b + Size(m, b) < |m|
  {
    var n := b + Size(m, b);
    && words > Size(m, b) && !Used(m, b - 1)
    && words <= Size(m, b - 1) + Size(m, b) + if Used(m, n) then 0 else Size(m, n)
  }

  // The payload at ptr is at r then, 0 for NULL, in a block of the size given, and the heap ends at brk'.
  ghost predicate ByTags(m: seq<Word>, brk: nat, lists: seq<seq<nat>>, ptr: nat, words: nat,
                         r: nat, brk': nat, size: nat)
  {
    && 1 < ptr <= |m| && ptr - 1 + Size(m, ptr - 1) < |m| && |lists| == FREE_LISTS_SIZE
    && var b := ptr - 1;
       var n := b + Size(m, b);
    && (StaysPut(m, b, words) <==> r == ptr && brk' == brk)
    && (StaysPut(m, b, words) ==> size == if words <= Size(m, b) then Size(m, b) else Size(m, b) + Size(m, n))
    && (MovesDown(m, b, words) <==> r != 0 && !Used(m, b - 1) && r + Size(m, b - 1) == ptr)
    && (MovesDown(m, b, words) ==>
          brk' == brk && size == Size(m, b - 1) + Size(m, b) + if Used(m, n) then 0 else Size(m, n))
    && (!StaysPut(m, b, words) && !MovesDown(m, b, words) ==>
          if n == brk - 1 then
            if brk + words - Size(m, b) > HEAP_MAX || (words - Size(m, b)) * WSIZE > INT_MAX then r == 0
            else r == ptr && brk' == brk + words - Size(m, b) && size == words
          else Provided(m, brk, lists, words, r, brk', size))
  }

  // The payload at r is one that mm_malloc gives for a block of so many words.
  ghost predicate Provided(m: seq<Word>, brk: nat, lists: seq<seq<nat>>, words: nat, r: nat, brk': nat, size: nat)
    requires |lists| == FREE_LISTS_SIZE
  {
    forall i, c :: OfClass(i, words) && Chosen(m, lists, i, words, c) ==> ProvidedAt(c, brk, words, r, brk', size)
  }

  // It is, when c is what the search finds.
  ghost predicate ProvidedAt(c: nat, brk: nat, words: nat, r: nat, brk': nat, size: nat) {
    if c != 0 then r == c + 1 && brk' == brk && words <= size < words + 8
    else
      var more := if words > 32 then words else 32;
      if brk + more > HEAP_MAX || more * WSIZE > INT_MAX then r == 0
      else 0 < r <= brk && brk' == brk + more && words <= size < words + 8
  }

  // What the tests of mm_realloc come to in a heap that is in order.
  lemma GrowthOnTags(m: seq<Word>, epi: nat, s: set<nat>, lists: seq<seq<nat>>, b: nat, words: nat)
    requires HeapState(m, epi, s, lists, {}) && b in UsedBlocks(m, s)
    ensures 0 < b < |m| && b + Size(m, b) < |m| && |lists| == FREE_LISTS_SIZE
    ensures
      var g, n := GrowthIn(m, b, words), b + Size(m, b);
      && (StaysPut(m, b, words) <==> g == Enough || g == IntoNext) && (g == Enough <==> words <= Size(m, b))
      && (MovesDown(m, b, words) <==> g == IntoPrevious || g == IntoBoth)
      && (g == IntoBoth ==> !Used(m, n)) && (g == IntoPrevious ==> Used(m, n))
      && (g == AtEnd <==> !StaysPut(m, b, words) && !MovesDown(m, b, words) && n == epi)
    ensures !Used(m, b - 1) ==> 8 <= Size(m, b - 1) < b
  {
    hide HeapState;
    assert b in s;
    Extent(m, epi, s, lists, {}, b);
    FreeBefore(m, epi, s, lists, {}, b);
    FreeAfter(m, epi, s, lists, {}, b + Size(m, b));
    EndHasNoWords(m, epi, s, lists, b + Size(m, b));
    BackInside(m, epi, s, lists, b);
  }

  lemma InPlaceByTags(m: seq<Word>, brk: nat, s: set<nat>, lists: seq<seq<nat>>, ptr: nat, words: nat, r: nat,
                      size: nat)
    requires 0 < brk && HeapState(m, brk - 1, s, lists, {}) && 0 < ptr && ptr - 1 in UsedBlocks(m, s)
    requires 1 < ptr <= |m| && ptr - 1 + Size(m, ptr - 1) < |m|
    requires
      var b := ptr - 1;
      var n := b + Size(m, b);
      match GrowthIn(m, b, words)
      case Enough => r == ptr && size == Size(m, b)
      case IntoNext => r == ptr && size == Size(m, b) + Size(m, n)
      case IntoPrevious => r + Size(m, b - 1) == ptr && r > 0 && size == Size(m, b - 1) + Size(m, b)
      case IntoBoth => r + Size(m, b - 1) == ptr && r > 0 && size == Size(m, b - 1) + Size(m, b) + Size(m, n)
      case _ => false
    ensures ByTags(m, brk, lists, ptr, words, r, brk, size)
  {
    hide HeapState, StaysPut, MovesDown, UsedBlocks;
    GrowthOnTags(m, brk - 1, s, lists, ptr - 1, words);
  }

  lemma AtEndByTags(m: seq<Word>, brk: nat, s: set<nat>, lists: seq<seq<nat>>, ptr: nat, words: nat,
                    r: nat, brk': nat, size: nat)
    requires 0 < brk && HeapState(m, brk - 1, s, lists, {}) && 0 < ptr <= |m| && ptr - 1 in UsedBlocks(m, s)
    requires GrowthIn(m, ptr - 1, words) == AtEnd && words > Size(m, ptr - 1)
    requires
      var growth := words - Size(m, ptr - 1);
      if brk + growth > HEAP_MAX || growth * WSIZE > INT_MAX then r == 0
      else r == ptr && brk' == brk + growth && size == words
    ensures ByTags(m, brk, lists, ptr, words, r, brk', size)
  {
    hide HeapState, StaysPut, MovesDown, UsedBlocks;
    GrowthOnTags(m, brk - 1, s, lists, ptr - 1, words);
  }

  lemma ElsewhereByTags(m: seq<Word>, brk: nat, s: set<nat>, lists: seq<seq<nat>>, ptr: nat, words: nat,
                        r: nat, brk': nat, size: nat)
    requires 0 < brk && HeapState(m, brk - 1, s, lists, {}) && 0 < ptr <= |m| && ptr - 1 in UsedBlocks(m, s)
    requires GrowthIn(m, ptr - 1, words) == Elsewhere && r != ptr && (0 < r < ptr ==> r + words <= ptr)
    requires |lists| == FREE_LISTS_SIZE && ProvidedAt(FitFor(m, lists, words), brk, words, r, brk', size)
    ensures ByTags(m, brk, lists, ptr, words, r, brk', size)
  {
    hide HeapState, UsedBlocks, FitFor, Chosen, ProvidedAt, Provided;
    GrowthOnTags(m, brk - 1, s, lists, ptr - 1, words);
    ProvidedByFit(m, brk, lists, words, r, brk', size);
  }

  lemma ProvidedByFit(m: seq<Word>, brk: nat, lists: seq<seq<nat>>, words: nat, r: nat, brk': nat, size: nat)
    requires |lists| == FREE_LISTS_SIZE && ProvidedAt(FitFor(m, lists, words), brk, words, r, brk', size)
    ensures Provided(m, brk, lists, words, r, brk', size)
  {
    hide FitFor, Chosen, ProvidedAt;
    forall i, c | OfClass(i, words) && Chosen(m, lists, i, words, c) ensures c == FitFor(m, lists, words) {
      FitIsChosen(m, lists, i, words);
      ChosenOnce(m, lists, i, words, c, FitFor(m, lists, words));
    }
  }

  lemma EndHasNoWords(m: seq<Word>, epi: nat, s: set<nat>, lists: seq<seq<nat>>, n: nat)
    requires HeapState(m, epi, s, lists, {}) && n in s + {epi}
    ensures n < |m| && (Size(m, n) == 0 <==> n == epi) && |lists| == FREE_LISTS_SIZE
  {
    if n in s {
      BlockExtent(m, epi, s, MIN_BLOCK_SIZE_WORDS, n);
    }
  }

  lemma BackInside(m: seq<Word>, epi: nat, s: set<nat>, lists: seq<seq<nat>>, b: nat)
    requires HeapState(m, epi, s, lists, {}) && b in s
    ensures 0 < b <= |m| && Size(m, b - 1) <= b
  {
    BlockExtent(m, epi, s, MIN_BLOCK_SIZE_WORDS, b);
    assert b != FIRST ==> FollowsBlock(m, s, b);
  }

  method FindFitIndex(words: nat) returns (i: int)
    ensures i == FitIndex(words)
  {
    match words
    case 8 => return 0;
    case 24 => return 1;
    case 32 => return 2;
    case 40 => return 3;
    case 120 => return 4;
    case _ =>
    if words < MIN_BLOCK_SIZE_WORDS {
      return -1;
    }
    i := SMALL_CLASS_SIZE;
    while i < FREE_LISTS_SIZE
      invariant SMALL_CLASS_SIZE <= i <= FREE_LISTS_SIZE
      invariant forall j :: SMALL_CLASS_SIZE <= j < i ==> words >= RANGES[j]
    {
      if words < RANGES[i] {
        assert i == 5 || words >= RANGES[i - 1];
        return;
      }
      i := i + 1;
    }
    assert words >= RANGES[5] && words >= RANGES[6] && words >= RANGES[7] && words >= RANGES[8];
    return FREE_LISTS_SIZE - 1;
  }
}
