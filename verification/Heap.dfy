/** What malloclab/mm.c keeps true of its heap: blocks tile it, and the free lists hold the free ones by size. */
module Heap {
  import opened Memory
  import opened List
  import opened Layout
  import opened Blocks
  import opened FreeLists

  // The free list for blocks of the given size, -1 for sizes below the minimum.
  function FitIndex(words: nat): (i: int)
    ensures -1 <= i < FREE_LISTS_SIZE && (i == -1 <==> words < MIN_BLOCK_SIZE_WORDS)
  {
    if words == 8 then 0
    else if words == 24 then 1
    else if words == 32 then 2
    else if words == 40 then 3
    else if words == 120 then 4
    else if words < MIN_BLOCK_SIZE_WORDS then -1
    else if words < 616 then 5
    else if words < 3360 then 6
    else if words < 5792 then 7
    else if words < 41704 then 8
    else 9
  }

  // The sizes for which the ten lists are: five sizes, and five ranges of the others.
  predicate OfClass(i: nat, words: nat) {
    match i
    case 0 => words == 8
    case 1 => words == 24
    case 2 => words == 32
    case 3 => words == 40
    case 4 => words == 120
    case 5 => 8 < words < 616 && words !in {24, 32, 40, 120}
    case 6 => 616 <= words < 3360
    case 7 => 3360 <= words < 5792
    case 8 => 5792 <= words < 41704
    case 9 => 41704 <= words
    case _ => false
  }

  // Each size that a block can have is for one of them.
  lemma ClassIsIndex(i: nat, words: nat)
    ensures OfClass(i, words) <==> FitIndex(words) == i
    ensures (exists j :: OfClass(j, words)) <==> words >= 8
  {
    if words >= 8 {
      assert OfClass(FitIndex(words), words);
    }
  }

  // The element at lists[i][k] is that of a free block of the size of list i.
  ghost predicate Classed(m: seq<Word>, s: set<nat>, lists: seq<seq<nat>>, i: nat, k: nat)
    requires i < |lists| && k < |lists[i]|
  {
    var e := lists[i][k];
    2 <= e && e - 2 < |m| && e - 2 in s && !Used(m, e - 2) && FitIndex(Size(m, e - 2)) == i
  }

  ghost predicate InItsList(m: seq<Word>, lists: seq<seq<nat>>, b: nat) {
    && b < |m|
    && var i := FitIndex(Size(m, b));
       0 <= i < |lists| && b + 2 in lists[i]
  }

  // The lists hold the free blocks of s but for those in x, each in the list for its size, and no others.
  ghost predicate Classified(m: seq<Word>, s: set<nat>, lists: seq<seq<nat>>, x: set<nat>) {
    && (forall i, k {:trigger Classed(m, s, lists, i, k)} ::
          0 <= i < |lists| && 0 <= k < |lists[i]| ==> Classed(m, s, lists, i, k) && lists[i][k] - 2 !in x)
    && (forall b {:trigger InItsList(m, lists, b)} :: b in s && b < |m| && b !in x && !Used(m, b) ==>
       InItsList(m, lists, b))
  }

  ghost predicate Mids(m: seq<Word>) {
    |m| > HEAP_LO && forall i :: 0 <= i < FREE_LISTS_SIZE ==> m[MidAt(i)] == RANGES[i] / 2
  }

  // The block of element e is smaller than half of what the range of list i reaches to.
  ghost predicate Low(m: seq<Word>, i: nat, e: nat) {
    2 <= e && e - 2 < |m| && i < |RANGES| && Size(m, e - 2) < RANGES[i] / 2
  }

  // Of the elements at j and k of list i, the first is low if the second is.
  ghost predicate LowFirst(m: seq<Word>, lists: seq<seq<nat>>, i: nat, j: nat, k: nat)
    requires i < |lists| && j < |lists[i]| && k < |lists[i]|
  {
    Low(m, i, lists[i][k]) ==> Low(m, i, lists[i][j])
  }

  // In each list all low blocks come before all others.
  ghost predicate Halved(m: seq<Word>, lists: seq<seq<nat>>) {
    forall i, j, k {:trigger LowFirst(m, lists, i, j, k)} ::
      0 <= i < |lists| && 0 <= j < k < |lists[i]| ==> LowFirst(m, lists, i, j, k)
  }

  // The heap, up to the epilogue at epi; the blocks in x are free but not in a list yet.
  ghost predicate HeapState(m: seq<Word>, epi: nat, s: set<nat>, lists: seq<seq<nat>>, x: set<nat>) {
    && Tiled(m, epi, s, MIN_BLOCK_SIZE_WORDS)
    && Links(m, lists)
    && Classified(m, s, lists, x)
    && Coalesced(m, s, x)
    && Mids(m)
    && Halved(m, lists)
    && x <= s
  }

  // ----- writing links -----

  // A word of a listed element is neither a tag nor in a used block.
  lemma ElementWordInFreeBlock(m: seq<Word>, epi: nat, s: set<nat>, lists: seq<seq<nat>>, x: set<nat>, w: nat)
    returns (b: nat)
    requires Tiled(m, epi, s, MIN_BLOCK_SIZE_WORDS) && Classified(m, s, lists, x) && ElementWord(lists, w)
    ensures b in s && b < |m| && !Used(m, b) && b + 2 <= w < b + 6 && b + 8 <= b + Size(m, b) <= epi && FIRST <= b
    ensures b !in x
  {
    var i, k :| 0 <= i < |lists| && 0 <= k < |lists[i]| && lists[i][k] <= w < lists[i][k] + ELEM_WORDS;
    assert Classed(m, s, lists, i, k);
    b := lists[i][k] - 2;
    assert Block(m, epi, s, MIN_BLOCK_SIZE_WORDS, b);
  }

  // Links written leave tags, mids and used blocks as they are.
  lemma LinksTouchedKeeps(m: seq<Word>, m': seq<Word>, epi: nat, s: set<nat>, lists: seq<seq<nat>>, x: set<nat>)
    requires Tiled(m, epi, s, MIN_BLOCK_SIZE_WORDS) && Classified(m, s, lists, x) && LinksTouched(m, m', lists)
    ensures SameTags(m, m', epi, s)
    ensures Mids(m) ==> Mids(m')
    ensures Keeps(m, m', UsedBlocks(m, s))
  {
    forall w | 0 <= w < |m| && m'[w] != m[w] && ElementWord(lists, w)
      ensures w != FIRST - 1 && w != epi && w >= FIRST
      ensures forall b :: b in s ==> b < |m| && b != w && b + Size(m, b) - 1 != w
    {
      TagIsNoElementWord(m, epi, s, lists, x, w);
    }
    forall b | b in s ensures TagsAgree(m, m', b) {
      assert Block(m, epi, s, MIN_BLOCK_SIZE_WORDS, b);
    }
    forall b | b in UsedBlocks(m, s) ensures KeepsBlock(m, m', b) {
      UsedBlockKept(m, m', epi, s, lists, x, b);
    }
  }

  lemma TagIsNoElementWord(m: seq<Word>, epi: nat, s: set<nat>, lists: seq<seq<nat>>, x: set<nat>, w: nat)
    requires Tiled(m, epi, s, MIN_BLOCK_SIZE_WORDS) && Classified(m, s, lists, x) && ElementWord(lists, w)
    ensures FIRST <= w < epi
    ensures forall b :: b in s ==> b < |m| && b != w && b + Size(m, b) - 1 != w
  {
    var f := ElementWordInFreeBlock(m, epi, s, lists, x, w);
    forall b | b in s ensures b < |m| && b != w && b + Size(m, b) - 1 != w {
      assert Block(m, epi, s, MIN_BLOCK_SIZE_WORDS, b);
      assert Separate(m, b, f) && Separate(m, f, b);
    }
  }

  lemma UsedBlockKept(m: seq<Word>, m': seq<Word>, epi: nat, s: set<nat>, lists: seq<seq<nat>>, x: set<nat>, b: nat)
    requires Tiled(m, epi, s, MIN_BLOCK_SIZE_WORDS) && Classified(m, s, lists, x) && LinksTouched(m, m', lists)
    requires b in UsedBlocks(m, s)
    ensures KeepsBlock(m, m', b)
  {
    assert Block(m, epi, s, MIN_BLOCK_SIZE_WORDS, b);
    forall w | b <= w < b + Size(m, b) ensures m'[w] == m[w] {
      NotElementWord(m, epi, s, lists, x, b, w);
    }
  }

  // Words of a block that is used or in x, and tags of any block, are not links.
  lemma NotElementWord(m: seq<Word>, epi: nat, s: set<nat>, lists: seq<seq<nat>>, x: set<nat>, b: nat, w: nat)
    requires Tiled(m, epi, s, MIN_BLOCK_SIZE_WORDS) && Classified(m, s, lists, x)
    requires b in s && b < |m| && b <= w < b + Size(m, b)
    requires b in x || Used(m, b) || w < b + 2 || b + 6 <= w
    ensures !ElementWord(lists, w) && FIRST <= w < epi && !EndWord(w)
  {
    assert Block(m, epi, s, MIN_BLOCK_SIZE_WORDS, b);
    if ElementWord(lists, w) {
      var f := ElementWordInFreeBlock(m, epi, s, lists, x, w);
      BlocksDisjoint(m, epi, s, MIN_BLOCK_SIZE_WORDS, b, f);
    }
  }

  // ----- writing tags -----

  lemma TaggedKeepsLinks(m: seq<Word>, lists: seq<seq<nat>>, b: nat, size: nat, used: bool)
    requires Links(m, lists) && Mids(m) && 0 < size < 0x4000_0000 && FIRST <= b && b + size <= |m|
    requires !ElementWord(lists, b) && !ElementWord(lists, b + size - 1)
    ensures Links(Tagged(m, b, size, used), lists) && Mids(Tagged(m, b, size, used))
  {
    LinksFrame(m, Tagged(m, b, size, used), lists);
  }

  // ----- what the lists hold -----

  // No element is at two places.
  lemma ListedApart(m: seq<Word>, lists: seq<seq<nat>>, i: nat, k: nat, j: nat, l: nat)
    requires Links(m, lists) && i < |lists| && k < |lists[i]| && j < |lists| && l < |lists[j]| && !(i == j && k == l)
    ensures lists[i][k] != lists[j][l]
  {
    if i != j {
      assert Differ(lists, i, k, j, l);
    } else {
      assert ListAt(m, lists, i);
      var c := ChainOf(i, lists[i]);
      if k < l {
        assert Apart(c[k + 1], c[l + 1]);
      } else {
        assert Apart(c[l + 1], c[k + 1]);
      }
    }
  }

  lemma Unlisted(m: seq<Word>, s: set<nat>, lists: seq<seq<nat>>, x: set<nat>, i: nat, k: nat)
    requires Links(m, lists) && Classified(m, s, lists, x) && i < |lists| && k < |lists[i]|
    ensures 2 <= lists[i][k]
    ensures Classified(m, s, lists[i := Without(lists[i], k)], x + {lists[i][k] - 2})
    ensures !Listed(lists[i := Without(lists[i], k)], lists[i][k])
  {
    assert Classed(m, s, lists, i, k);
    var lists', b := lists[i := Without(lists[i], k)], lists[i][k] - 2;
    forall j, l | 0 <= j < |lists'| && 0 <= l < |lists'[j]|
      ensures Classed(m, s, lists', j, l) && lists'[j][l] - 2 !in x + {b}
    {
      var l0 := if j == i && l >= k then l + 1 else l;
      assert Classed(m, s, lists, j, l0) && lists'[j][l] == lists[j][l0];
      ListedApart(m, lists, i, k, j, l0);
    }
    hide Links, Classed;
    forall c | c in s && c < |m| && c !in x + {b} && !Used(m, c) ensures InItsList(m, lists', c) {
      assert InItsList(m, lists, c);
      var j := FitIndex(Size(m, c));
      var l :| 0 <= l < |lists[j]| && lists[j][l] == c + 2;
      assert lists'[j][if j == i && l > k then l - 1 else l] == c + 2;
    }
  }

  lemma NowListed(m: seq<Word>, s: set<nat>, lists: seq<seq<nat>>, x: set<nat>, b: nat, k: nat)
    requires Classified(m, s, lists, x) && |lists| == FREE_LISTS_SIZE
    requires b in s && b in x && b < |m| && !Used(m, b) && FitIndex(Size(m, b)) >= 0
    requires k <= |lists[FitIndex(Size(m, b))]|
    ensures Classified(m, s, lists[FitIndex(Size(m, b)) := With(lists[FitIndex(Size(m, b))], k, b + 2)], x - {b})
  {
    var i := FitIndex(Size(m, b));
    var lists' := lists[i := With(lists[i], k, b + 2)];
    forall j, l | 0 <= j < |lists'| && 0 <= l < |lists'[j]|
      ensures Classed(m, s, lists', j, l) && lists'[j][l] - 2 !in x - {b}
    {
      if !(j == i && l == k) {
        assert Classed(m, s, lists, j, if j == i && l > k then l - 1 else l);
      }
    }
    forall c | c in s && c < |m| && c !in x - {b} && !Used(m, c) ensures InItsList(m, lists', c) {
      if c == b {
        assert lists'[i][k] == b + 2;
      } else {
        assert InItsList(m, lists, c);
        var j := FitIndex(Size(m, c));
        var l :| 0 <= l < |lists[j]| && lists[j][l] == c + 2;
        assert lists'[j][if j == i && l >= k then l + 1 else l] == c + 2;
      }
    }
  }

  // The sizes of listed blocks are all that the order of the lists depends on.
  lemma HalvedKept(m: seq<Word>, m': seq<Word>, lists: seq<seq<nat>>)
    requires Halved(m, lists)
    requires forall i, k :: 0 <= i < |lists| && 0 <= k < |lists[i]| ==> HeaderKept(m, m', lists[i][k])
    ensures Halved(m', lists)
  {
    forall i, j, k | 0 <= i < |lists| && 0 <= j < k < |lists[i]| ensures LowFirst(m', lists, i, j, k) {
      assert LowFirst(m, lists, i, j, k) && HeaderKept(m, m', lists[i][j]) && HeaderKept(m, m', lists[i][k]);
    }
  }

  ghost predicate HeaderKept(m: seq<Word>, m': seq<Word>, e: nat) {
    2 <= e && e - 2 < |m| && |m'| == |m| && m'[e - 2] == m[e - 2]
  }

  // Blocks that are listed keep their headers when all but those in u do, and none of u is listed.
  lemma ListedKept(m: seq<Word>, m': seq<Word>, s: set<nat>, lists: seq<seq<nat>>, x: set<nat>, u: set<nat>)
    requires Classified(m, s, lists, x) && Halved(m, lists) && |m'| == |m|
    requires forall b :: b in s && b !in u ==> b < |m| && m'[b] == m[b]
    requires forall b :: b in u ==> b in x || (b < |m| && Used(m, b))
    ensures Halved(m', lists)
  {
    forall i, k | 0 <= i < |lists| && 0 <= k < |lists[i]| ensures HeaderKept(m, m', lists[i][k]) {
      assert Classed(m, s, lists, i, k);
    }
    hide Classified, Classed;
    HalvedKept(m, m', lists);
  }

  lemma UnlistedHalved(m: seq<Word>, lists: seq<seq<nat>>, i: nat, k: nat)
    requires Halved(m, lists) && i < |lists| && k < |lists[i]|
    ensures Halved(m, lists[i := Without(lists[i], k)])
  {
    var lists' := lists[i := Without(lists[i], k)];
    forall a, b, c | 0 <= a < |lists'| && 0 <= b < c < |lists'[a]| ensures LowFirst(m, lists', a, b, c) {
      var b0, c0 := if a == i && b >= k then b + 1 else b, if a == i && c >= k then c + 1 else c;
      assert LowFirst(m, lists, a, b0, c0) && lists'[a][b] == lists[a][b0] && lists'[a][c] == lists[a][c0];
    }
  }

  // l with e first, or last.
  ghost function Pushed(l: seq<nat>, e: nat, front: bool): seq<nat> { if front then [e] + l else l + [e] }

  lemma PushedIsWith(l: seq<nat>, e: nat, front: bool)
    ensures With(l, if front then 0 else |l|, e) == Pushed(l, e, front)
  {
  }

  // A low block goes to the front, another to the back.
  lemma PushedHalved(m: seq<Word>, lists: seq<seq<nat>>, i: nat, e: nat)
    requires Halved(m, lists) && i < |lists|
    ensures Halved(m, lists[i := Pushed(lists[i], e, Low(m, i, e))])
  {
    var front := Low(m, i, e);
    var lists' := lists[i := Pushed(lists[i], e, front)];
    hide Low;
    forall a, b, c | 0 <= a < |lists'| && 0 <= b < c < |lists'[a]| ensures LowFirst(m, lists', a, b, c) {
      var d := if a == i && front then 1 else 0;
      if b >= d && c < |lists[a]| + d {
        assert LowFirst(m, lists, a, b - d, c - d);
      }
    }
  }

  lemma NotListed(m: seq<Word>, s: set<nat>, lists: seq<seq<nat>>, x: set<nat>, b: nat)
    requires Classified(m, s, lists, x) && b < |m| && (b !in s || b in x || Used(m, b))
    ensures !Listed(lists, b + 2)
  {
    forall i, k | 0 <= i < |lists| && 0 <= k < |lists[i]| ensures lists[i][k] != b + 2 {
      assert Classed(m, s, lists, i, k);
    }
  }

  // Tags that have not changed mean what they did.
  lemma SameTagsSameState(m: seq<Word>, m': seq<Word>, epi: nat, s: set<nat>, lists: seq<seq<nat>>, x: set<nat>)
    requires Classified(m, s, lists, x) && SameTags(m, m', epi, s)
    ensures Classified(m', s, lists, x) && UsedBlocks(m', s) == UsedBlocks(m, s)
    ensures Coalesced(m, s, x) ==> Coalesced(m', s, x)
  {
    forall i, k | 0 <= i < |lists| && 0 <= k < |lists[i]|
      ensures Classed(m', s, lists, i, k) && lists[i][k] - 2 !in x
    {
      assert Classed(m, s, lists, i, k);
      assert TagsAgree(m, m', lists[i][k] - 2);
    }
    forall b | b in s && b < |m'| && b !in x && !Used(m', b) ensures InItsList(m', lists, b) {
      assert TagsAgree(m, m', b);
      assert InItsList(m, lists, b);
    }
    forall b | b in s ensures b < |m| && m'[b] == m[b] {
      assert TagsAgree(m, m', b);
    }
    if Coalesced(m, s, x) {
      forall b | b in s ensures NotBothFree(m', s, x, b) {
        assert NotBothFree(m, s, x, b);
      }
    }
  }

  lemma SameTagsHalved(m: seq<Word>, m': seq<Word>, epi: nat, s: set<nat>, lists: seq<seq<nat>>, x: set<nat>)
    requires Classified(m, s, lists, x) && SameTags(m, m', epi, s) && Halved(m, lists)
    ensures Halved(m', lists)
  {
    hide Classified, Halved;
    forall b | b in s ensures b < |m| && m'[b] == m[b] {
      assert TagsAgree(m, m', b);
    }
    ListedKept(m, m', s, lists, x, {});
  }

  lemma JoinedHalved(m: seq<Word>, m': seq<Word>, epi: nat, s: set<nat>, lists: seq<seq<nat>>, x: set<nat>,
                     b: nat, e: nat)
    requires Classified(m, s, lists, x) && JoinsTags(m, m', epi, s, b, e) && Halved(m, lists)
    requires forall c :: c in s && b <= c < e ==> c < |m| && (c in x || Used(m, c))
    ensures Halved(m', lists)
  {
    hide Classified, Halved;
    var u := set c | c in s && b <= c < e;
    forall c | c in s && c !in u ensures c < |m| && m'[c] == m[c] {
      assert TagsAgree(m, m', c);
    }
    ListedKept(m, m', s, lists, x, u);
  }

  lemma SplitHalved(m: seq<Word>, m': seq<Word>, epi: nat, s: set<nat>, lists: seq<seq<nat>>, x: set<nat>, b: nat,
                    k: nat)
    requires Classified(m, s, lists, x) && Halved(m, lists)
    requires SplitsTags(m, m', epi, s, MIN_BLOCK_SIZE_WORDS, b, k) && (b in x || Used(m, b))
    ensures Halved(m', lists)
  {
    hide Classified, Halved;
    forall c | c in s && c !in {b} ensures c < |m| && m'[c] == m[c] {
      assert TagsAgree(m, m', c);
    }
    ListedKept(m, m', s, lists, x, {b});
  }

  lemma ExtendHalved(m: seq<Word>, m': seq<Word>, epi: nat, s: set<nat>, lists: seq<seq<nat>>, x: set<nat>, k: nat)
    requires Classified(m, s, lists, x) && Halved(m, lists)
    requires ExtendsTags(m, m', epi, s, MIN_BLOCK_SIZE_WORDS, k)
    ensures Halved(m', lists)
  {
    hide Classified, Halved;
    forall c | c in s ensures c < |m| && m'[c] == m[c] {
      assert TagsAgree(m, m', c);
    }
    ListedKept(m, m', s, lists, x, {});
  }

  lemma JoinedClassified(m: seq<Word>, m': seq<Word>, epi: nat, s: set<nat>, lists: seq<seq<nat>>, x: set<nat>,
                         b: nat, e: nat)
    requires Tiled(m, epi, s, MIN_BLOCK_SIZE_WORDS) && Classified(m, s, lists, x) && JoinsTags(m, m', epi, s, b, e)
    requires forall c :: c in s && b <= c < e ==> c < |m| && (c in x || Used(m, c))
    ensures Classified(m', Joined(s, b, e), lists, PendingJoined(x, b, e, Used(m', b)))
  {
    var s', x' := Joined(s, b, e), PendingJoined(x, b, e, Used(m', b));
    forall i, k | 0 <= i < |lists| && 0 <= k < |lists[i]|
      ensures Classed(m', s', lists, i, k) && lists[i][k] - 2 !in x'
    {
      assert Classed(m, s, lists, i, k);
      assert TagsAgree(m, m', lists[i][k] - 2);
    }
    forall c | c in s' && c < |m'| && c !in x' && !Used(m', c) ensures InItsList(m', lists, c) {
      assert TagsAgree(m, m', c);
      assert InItsList(m, lists, c);
    }
  }

  lemma SplitState(m: seq<Word>, m': seq<Word>, epi: nat, s: set<nat>, lists: seq<seq<nat>>, x: set<nat>, b: nat,
                   k: nat)
    requires Tiled(m, epi, s, MIN_BLOCK_SIZE_WORDS) && Classified(m, s, lists, x)
    requires SplitsTags(m, m', epi, s, MIN_BLOCK_SIZE_WORDS, b, k) && (b in x || Used(m, b))
    ensures Classified(m', s + {b + k}, lists, PendingSplit(x, b, k, Used(m', b), Used(m', b + k)))
    ensures Coalesced(m, s, x) ==>
            Coalesced(m', s + {b + k}, PendingSplit(x, b, k, Used(m', b), Used(m', b + k)))
    ensures UsedBlocks(m', s + {b + k})
         == UsedBlocks(m, s) - {b} + (if Used(m', b) then {b} else {}) + if Used(m', b + k) then {b + k} else {}
  {
    hide Block, FollowsBlock, Separate;
    SplitClassified(m, m', epi, s, lists, x, b, k);
    if Coalesced(m, s, x) {
      SplitCoalesced(m, m', epi, s, MIN_BLOCK_SIZE_WORDS, x, b, k);
    }
    SplitUsed(m, m', epi, s, MIN_BLOCK_SIZE_WORDS, b, k);
  }

  lemma SplitClassified(m: seq<Word>, m': seq<Word>, epi: nat, s: set<nat>, lists: seq<seq<nat>>, x: set<nat>, b: nat,
                        k: nat)
    requires Tiled(m, epi, s, MIN_BLOCK_SIZE_WORDS) && Classified(m, s, lists, x)
    requires SplitsTags(m, m', epi, s, MIN_BLOCK_SIZE_WORDS, b, k) && (b in x || Used(m, b))
    ensures Classified(m', s + {b + k}, lists, PendingSplit(x, b, k, Used(m', b), Used(m', b + k)))
  {
    var s', x' := s + {b + k}, PendingSplit(x, b, k, Used(m', b), Used(m', b + k));
    NotInside(m, epi, s, MIN_BLOCK_SIZE_WORDS, b, k);
    forall i, j | 0 <= i < |lists| && 0 <= j < |lists[i]|
      ensures Classed(m', s', lists, i, j) && lists[i][j] - 2 !in x'
    {
      assert Classed(m, s, lists, i, j);
      assert TagsAgree(m, m', lists[i][j] - 2);
    }
    forall c | c in s' && c < |m'| && c !in x' && !Used(m', c) ensures InItsList(m', lists, c) {
      assert TagsAgree(m, m', c);
      assert InItsList(m, lists, c);
    }
  }

  lemma ExtendState(m: seq<Word>, m': seq<Word>, epi: nat, s: set<nat>, lists: seq<seq<nat>>, x: set<nat>, k: nat)
    requires Tiled(m, epi, s, MIN_BLOCK_SIZE_WORDS) && Classified(m, s, lists, x) && Coalesced(m, s, x)
    requires ExtendsTags(m, m', epi, s, MIN_BLOCK_SIZE_WORDS, k) && !Used(m', epi)
    ensures Classified(m', s + {epi}, lists, x + {epi}) && Coalesced(m', s + {epi}, x + {epi})
    ensures UsedBlocks(m', s + {epi}) == UsedBlocks(m, s)
  {
    ExtendCoalesced(m, m', epi, s, MIN_BLOCK_SIZE_WORDS, x, k);
    var s', x' := s + {epi}, x + {epi};
    forall c | c in s ensures c < epi && m'[c] == m[c] {
      assert Block(m, epi, s, MIN_BLOCK_SIZE_WORDS, c) && TagsAgree(m, m', c);
    }
    forall i, j | 0 <= i < |lists| && 0 <= j < |lists[i]|
      ensures Classed(m', s', lists, i, j) && lists[i][j] - 2 !in x'
    {
      assert Classed(m, s, lists, i, j);
    }
    forall c | c in s' && c < |m'| && c !in x' && !Used(m', c) ensures InItsList(m', lists, c) {
      assert InItsList(m, lists, c);
    }
  }

  // ----- one step of the allocator on the whole state -----

  // Linking the element of block b out of its list makes b pending.
  lemma AfterUnlink(m: seq<Word>, m': seq<Word>, epi: nat, s: set<nat>, lists: seq<seq<nat>>, x: set<nat>, i: nat,
                    k: nat)
    requires HeapState(m, epi, s, lists, x) && i < |lists| && k < |lists[i]|
    requires Links(m', lists[i := Without(lists[i], k)]) && LinksTouched(m, m', lists)
    ensures 2 <= lists[i][k]
    ensures HeapState(m', epi, s, lists[i := Without(lists[i], k)], x + {lists[i][k] - 2})
    ensures SameTags(m, m', epi, s) && Keeps(m, m', UsedBlocks(m, s)) && UsedBlocks(m', s) == UsedBlocks(m, s)
  {
    hide Block, FollowsBlock, Separate, LinksTouched, Links, Mids;
    Unlisted(m, s, lists, x, i, k);
    var lists', x' := lists[i := Without(lists[i], k)], x + {lists[i][k] - 2};
    assert Classed(m, s, lists, i, k);
    LinksTouchedKeeps(m, m', epi, s, lists, x);
    TagsTile(m, m', epi, s, MIN_BLOCK_SIZE_WORDS);
    CoalescedMore(m, s, x, x');
    SameTagsSameState(m, m', epi, s, lists', x');
    UnlistedHalved(m, lists, i, k);
    SameTagsHalved(m, m', epi, s, lists', x');
  }

  // Linking a pending block into its list settles it.
  lemma AfterLink(m: seq<Word>, m': seq<Word>, epi: nat, s: set<nat>, lists: seq<seq<nat>>, x: set<nat>, b: nat)
    requires HeapState(m, epi, s, lists, x) && b in x && b < |m| && !Used(m, b)
    requires 0 < b && Used(m, b - 1)
    requires b + Size(m, b) == epi || (b + Size(m, b) < |m| && Used(m, b + Size(m, b)))
    requires 0 <= FitIndex(Size(m, b)) < |lists|
    requires
      var i := FitIndex(Size(m, b));
      var lists' := lists[i := Pushed(lists[i], b + 2, Low(m, i, b + 2))];
      Links(m', lists') && LinksTouched(m, m', lists')
    ensures
      var i := FitIndex(Size(m, b));
      HeapState(m', epi, s, lists[i := Pushed(lists[i], b + 2, Low(m, i, b + 2))], x - {b})
    ensures SameTags(m, m', epi, s) && Keeps(m, m', UsedBlocks(m, s)) && UsedBlocks(m', s) == UsedBlocks(m, s)
  {
    assert |lists| == FREE_LISTS_SIZE;
    hide Block, FollowsBlock, Separate, LinksTouched, Links, Mids, Pushed, Low;
    var i := FitIndex(Size(m, b));
    var front := Low(m, i, b + 2);
    var lists', x' := lists[i := Pushed(lists[i], b + 2, front)], x - {b};
    PushedIsWith(lists[i], b + 2, front);
    NowListed(m, s, lists, x, b, if front then 0 else |lists[i]|);
    PushedHalved(m, lists, i, b + 2);
    LinksTouchedKeeps(m, m', epi, s, lists', x');
    TagsTile(m, m', epi, s, MIN_BLOCK_SIZE_WORDS);
    SettledCoalesced(m, epi, s, MIN_BLOCK_SIZE_WORDS, x, b);
    SameTagsSameState(m, m', epi, s, lists', x');
    SameTagsHalved(m, m', epi, s, lists', x');
  }

  // Tagging one block over pending and used ones, from b to e, joins them.
  lemma AfterJoin(m: seq<Word>, epi: nat, s: set<nat>, lists: seq<seq<nat>>, x: set<nat>, b: nat, e: nat, used: bool)
    requires HeapState(m, epi, s, lists, x) && b in s && e in s + {epi} && b < e < FIRST + 0x4000_0000
    requires forall c :: c in s && b <= c < e ==> c < |m| && (c in x || Used(m, c))
    ensures e <= epi < |m| && FIRST <= b
    ensures
      var m' := Tagged(m, b, e - b, used);
      && HeapState(m', epi, Joined(s, b, e), lists, PendingJoined(x, b, e, used))
      && UsedBlocks(m', Joined(s, b, e)) == Outside(UsedBlocks(m, s), b, e) + (if used then {b} else {})
      && Keeps(m, m', Outside(UsedBlocks(m, s), b, e))
  {
    JoinBounds(m, epi, s, lists, x, b, e);
    var m' := Tagged(m, b, e - b, used);
    hide Tiled, Links, Mids, Classified, Coalesced, UsedBlocks, Outside, Joined, PendingJoined, Keeps, Tagged,
         JoinsTags,
         ElementWord;
    TaggedJoins(m, epi, s, MIN_BLOCK_SIZE_WORDS, b, e, used);
    JoinTiles(m, m', epi, s, MIN_BLOCK_SIZE_WORDS, b, e);
    JoinedClassified(m, m', epi, s, lists, x, b, e);
    JoinedHalved(m, m', epi, s, lists, x, b, e);
    JoinedCoalesced(m, m', epi, s, MIN_BLOCK_SIZE_WORDS, x, b, e);
    JoinedUsed(m, m', epi, s, MIN_BLOCK_SIZE_WORDS, b, e);
    LastWordBefore(m, epi, s, lists, x, b, e);
    NotElementWord(m, epi, s, lists, x, b, b);
    TaggedKeepsLinks(m, lists, b, e - b, used);
  }

  lemma JoinBounds(m: seq<Word>, epi: nat, s: set<nat>, lists: seq<seq<nat>>, x: set<nat>, b: nat, e: nat)
    requires HeapState(m, epi, s, lists, x) && b in s && e in s + {epi} && b < e
    ensures FIRST <= b && e <= epi < |m| && (e - b) % 4 == 0 && 0 < Size(m, b)
    ensures forall used :: PendingJoined(x, b, e, used) <= Joined(s, b, e)
  {
    assert Block(m, epi, s, MIN_BLOCK_SIZE_WORDS, b);
    assert e != epi ==> Block(m, epi, s, MIN_BLOCK_SIZE_WORDS, e);
  }

  // The word before e is the footer of a block of s.
  lemma LastWordBefore(m: seq<Word>, epi: nat, s: set<nat>, lists: seq<seq<nat>>, x: set<nat>, b: nat, e: nat)
    requires Tiled(m, epi, s, MIN_BLOCK_SIZE_WORDS) && Classified(m, s, lists, x)
    requires b in s && e in s + {epi} && b < e && FIRST <= b
    ensures !ElementWord(lists, e - 1)
  {
    assert FollowsBlock(m, s, e);
    var p := e - Size(m, e - 1);
    assert Block(m, epi, s, MIN_BLOCK_SIZE_WORDS, p);
    NotElementWord(m, epi, s, lists, x, p, e - 1);
  }

  // Tagging a used block of k words at the start of the listed block b, and only then linking b out,
  // is the same as doing so in the other order; n is the memory in between in that order.
  lemma MarkThenUnlink(m: seq<Word>, m2: seq<Word>, epi: nat, s: set<nat>, lists: seq<seq<nat>>, x: set<nat>,
                       i: nat, j: nat, b: nat, k: nat) returns (n: seq<Word>)
    requires HeapState(m, epi, s, lists, x) && i < |lists| && j < |lists[i]| && lists[i][j] == b + 2
    requires b in s && b < |m| && MIN_BLOCK_SIZE_WORDS <= k <= Size(m, b) < 0x4000_0000 && b + Size(m, b) <= epi
    requires Links(m2, lists[i := Without(lists[i], j)]) && LinksTouched(Tagged(m, b, k, true), m2, lists)
    ensures HeapState(n, epi, s, lists[i := Without(lists[i], j)], x + {b})
    ensures SameTags(m, n, epi, s) && Keeps(m, n, UsedBlocks(m, s)) && UsedBlocks(n, s) == UsedBlocks(m, s)
    ensures |n| == |m| && m2 == Tagged(n, b, k, true)
  {
    var lists' := lists[i := Without(lists[i], j)];
    n := m2[b := m[b]][b + k - 1 := m[b + k - 1]];
    SizesPositive(m, epi, s, MIN_BLOCK_SIZE_WORDS);
    NotElementWord(m, epi, s, lists, x, b, b);
    NotElementWord(m, epi, s, lists, x, b, b + k - 1);
    WithoutWords(lists, i, j, b);
    WithoutWords(lists, i, j, b + k - 1);
    hide ElementWord, Tiled, Classified, Coalesced, Links;
    assert LinksTouched(m, n, lists);
    assert m2 == Tagged(n, b, k, true);
    LinksFrame(m2, n, lists');
    hide LinksTouched;
    AfterUnlink(m, n, epi, s, lists, x, i, j);
  }

  lemma WithoutWords(lists: seq<seq<nat>>, i: nat, j: nat, w: nat)
    requires i < |lists| && j < |lists[i]| && !ElementWord(lists, w)
    ensures !ElementWord(lists[i := Without(lists[i], j)], w)
  {
    var lists' := lists[i := Without(lists[i], j)];
    forall p, q | 0 <= p < |lists'| && 0 <= q < |lists'[p]| ensures !(lists'[p][q] <= w < lists'[p][q] + ELEM_WORDS) {
      assert lists'[p][q] == lists[p][if p == i && q >= j then q + 1 else q];
    }
  }

  // Tagging two blocks over a pending one splits it.
  lemma AfterSplit(m: seq<Word>, epi: nat, s: set<nat>, lists: seq<seq<nat>>, x: set<nat>, b: nat, k: nat)
    requires HeapState(m, epi, s, lists, x) && b in x && b < |m| && Size(m, b) < 0x4000_0000 && !Used(m, b)
    requires MIN_BLOCK_SIZE_WORDS <= k && k % 4 == 0 && k + MIN_BLOCK_SIZE_WORDS <= Size(m, b)
    ensures b + Size(m, b) <= epi < |m| && FIRST <= b
    ensures
      var m' := Tagged(Tagged(m, b, k, true), b + k, Size(m, b) - k, false);
      && HeapState(m', epi, s + {b + k}, lists, x - {b} + {b + k})
      && UsedBlocks(m', s + {b + k}) == UsedBlocks(m, s) + {b}
      && Keeps(m, m', UsedBlocks(m, s))
  {
    hide LinksTouched, Links, Mids;
    SizesPositive(m, epi, s, MIN_BLOCK_SIZE_WORDS);
    var m1 := Tagged(m, b, k, true);
    var m' := Tagged(m1, b + k, Size(m, b) - k, false);
    TaggedSplits(m, epi, s, MIN_BLOCK_SIZE_WORDS, b, k);
    NotElementWord(m, epi, s, lists, x, b, b);
    NotElementWord(m, epi, s, lists, x, b, b + k - 1);
    NotElementWord(m, epi, s, lists, x, b, b + k);
    NotElementWord(m, epi, s, lists, x, b, b + Size(m, b) - 1);
    hide Tagged, Block, Separate, FollowsBlock, SameTags;
    SplitTiles(m, m', epi, s, MIN_BLOCK_SIZE_WORDS, b, k);
    SplitState(m, m', epi, s, lists, x, b, k);
    SplitHalved(m, m', epi, s, lists, x, b, k);
    assert PendingSplit(x, b, k, true, false) == x - {b} + {b + k};
    TaggedKeepsLinks(m, lists, b, k, true);
    TaggedKeepsLinks(m1, lists, b + k, Size(m, b) - k, false);
  }

  // A new free block over the old epilogue, with a new epilogue after it.
  lemma AfterExtend(m: seq<Word>, epi: nat, s: set<nat>, lists: seq<seq<nat>>, x: set<nat>, k: nat)
    requires HeapState(m, epi, s, lists, x) && epi + k < |m|
    requires MIN_BLOCK_SIZE_WORDS <= k < 0x4000_0000 && k % 4 == 0
    ensures
      var m' := Tagged(m, epi, k, false)[epi + k := FENCE];
      && HeapState(m', epi + k, s + {epi}, lists, x + {epi})
      && UsedBlocks(m', s + {epi}) == UsedBlocks(m, s)
      && Keeps(m, m', UsedBlocks(m, s)) && Size(m', epi) == k && !Used(m', epi)
  {
    var m' := Tagged(m, epi, k, false)[epi + k := FENCE];
    TaggedExtends(m, epi, s, MIN_BLOCK_SIZE_WORDS, k);
    ExtendTiles(m, m', epi, s, MIN_BLOCK_SIZE_WORDS, k);
    ExtendState(m, m', epi, s, lists, x, k);
    ExtendHalved(m, m', epi, s, lists, x, k);
    hide Coalesced;
    forall w | 0 <= w < |m| && (EndWord(w) || ElementWord(lists, w)) ensures m'[w] == m[w] {
      if ElementWord(lists, w) {
        TagIsNoElementWord(m, epi, s, lists, x, w);
      }
    }
    LinksFrame(m, m', lists);
  }

  // Writing the payload of a used block leaves the heap and the other used blocks as they are.
  lemma AfterPayloadWrite(m: seq<Word>, m': seq<Word>, epi: nat, s: set<nat>, lists: seq<seq<nat>>, x: set<nat>,
                          b: nat, lo: nat, hi: nat)
    requires HeapState(m, epi, s, lists, x) && b in s && b < |m| && Used(m, b)
    requires b < lo && hi < b + Size(m, b) && SameOutside(m, m', lo, hi)
    ensures HeapState(m', epi, s, lists, x) && UsedBlocks(m', s) == UsedBlocks(m, s)
    ensures Keeps(m, m', UsedBlocks(m, s) - {b}) && m'[b] == m[b]
  {
    SizesPositive(m, epi, s, MIN_BLOCK_SIZE_WORDS);
    forall c | c in s ensures TagsAgree(m, m', c) && (c != b ==> KeepsBlock(m, m', c)) {
      PayloadOutside(m, m', epi, s, MIN_BLOCK_SIZE_WORDS, b, lo, hi, c);
    }
    assert SameTags(m, m', epi, s);
    TagsTile(m, m', epi, s, MIN_BLOCK_SIZE_WORDS);
    SameTagsSameState(m, m', epi, s, lists, x);
    SameTagsHalved(m, m', epi, s, lists, x);
    forall w | 0 <= w < |m| && (EndWord(w) || ElementWord(lists, w)) ensures m'[w] == m[w] {
      if lo <= w < hi {
        NotElementWord(m, epi, s, lists, x, b, w);
      }
    }
    LinksFrame(m, m', lists);
  }

  // The lemmas above for a heap that is in order.
  lemma BoundaryKept(m: seq<Word>, m': seq<Word>, epi: nat, s: set<nat>, lists: seq<seq<nat>>, x: set<nat>, c: nat)
    requires HeapState(m, epi, s, lists, x) && SameTags(m, m', epi, s) && c in s + {epi}
    ensures FIRST <= c < |m| == |m'| && m'[c] == m[c] && m'[c - 1] == m[c - 1]
  {
    TagsKeptAround(m, m', epi, s, MIN_BLOCK_SIZE_WORDS, c);
  }

  lemma FreeBefore(m: seq<Word>, epi: nat, s: set<nat>, lists: seq<seq<nat>>, x: set<nat>, c: nat)
    requires HeapState(m, epi, s, lists, x) && c in s + {epi}
    ensures FIRST <= c < |m|
    ensures !Used(m, c - 1) ==>
      && m[c - 1] / 2 <= c
      && var p := c - Size(m, c - 1);
      && p in s && FIRST <= p && p + MIN_BLOCK_SIZE_WORDS <= c && m[p] == m[c - 1] && p + Size(m, p) == c
      && (forall d :: d in s && p <= d < c ==> d == p)
      && (p !in x && x <= {c} ==> Used(m, p - 1))
  {
    FreeBlockBefore(m, epi, s, MIN_BLOCK_SIZE_WORDS, x, c);
  }

  lemma FreeAfter(m: seq<Word>, epi: nat, s: set<nat>, lists: seq<seq<nat>>, x: set<nat>, n: nat)
    requires HeapState(m, epi, s, lists, x) && n in s + {epi}
    ensures FIRST <= n <= epi < |m| && Used(m, epi)
    ensures !Used(m, n) ==>
      && n in s && MIN_BLOCK_SIZE_WORDS <= Size(m, n) && n + Size(m, n) in s + {epi} && n + Size(m, n) <= epi
      && (forall d :: d in s && n <= d < n + Size(m, n) ==> d == n)
      && (n !in x && n + Size(m, n) !in x ==> Used(m, n + Size(m, n)))
  {
    FreeBlockAfter(m, epi, s, MIN_BLOCK_SIZE_WORDS, x, n);
  }

  // ----- payloads -----

  lemma Extent(m: seq<Word>, epi: nat, s: set<nat>, lists: seq<seq<nat>>, x: set<nat>, b: nat)
    requires HeapState(m, epi, s, lists, x) && b in s
    ensures FIRST <= b < epi < |m| && MIN_BLOCK_SIZE_WORDS <= Size(m, b) && b + Size(m, b) in s + {epi}
    ensures b + Size(m, b) <= epi && b % 4 == 3 && Size(m, b) % 4 == 0
    ensures forall d :: d in s && b <= d < b + Size(m, b) ==> d == b
  {
    BlockExtent(m, epi, s, MIN_BLOCK_SIZE_WORDS, b);
  }

  lemma KeepsAsIs(m: seq<Word>, epi: nat, s: set<nat>, lists: seq<seq<nat>>, x: set<nat>)
    requires HeapState(m, epi, s, lists, x)
    ensures Keeps(m, m, UsedBlocks(m, s))
  {
    KeepsSelf(m, epi, s, MIN_BLOCK_SIZE_WORDS);
  }

  lemma NothingJoined(m: seq<Word>, epi: nat, s: set<nat>, lists: seq<seq<nat>>, x: set<nat>, b: nat)
    requires HeapState(m, epi, s, lists, x) && b in s
    ensures b < |m| && Joined(s, b, b + Size(m, b)) == s && Keeps(m, m, UsedBlocks(m, s))
  {
    BlockExtent(m, epi, s, MIN_BLOCK_SIZE_WORDS, b);
    JoinOfOne(m, epi, s, MIN_BLOCK_SIZE_WORDS, b);
    KeepsSelf(m, epi, s, MIN_BLOCK_SIZE_WORDS);
  }
}
