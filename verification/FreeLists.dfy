/** The ten segregated free lists of malloclab/mm.c, whose elements lie inside the free blocks. */
module FreeLists {
  import opened Memory
  import opened List
  import opened Layout

  const FREE_LISTS_SIZE := 10
  const SMALL_CLASS_SIZE := 5
  const MIN_BLOCK_SIZE_WORDS := 8
  const RANGES := [8, 24, 32, 40, 120, 616, 3360, 5792, 41704, 153704]

  // struct free_list: the head of its list, the tail of its list, and mid.
  function Head(i: nat): nat { FREE_LISTS + 10 * i }
  function Tail(i: nat): nat { FREE_LISTS + 10 * i + ELEM_WORDS }
  function MidAt(i: nat): nat { FREE_LISTS + 10 * i + 2 * ELEM_WORDS }

  ghost function ChainOf(i: nat, s: seq<nat>): seq<nat> { [Head(i)] + s + [Tail(i)] }

  // The list element of a block is two words into it, on the heap.
  ghost predicate InHeap(e: nat) { e >= FIRST + 2 && e % 4 == 1 }

  // lists[i] are the elements of free list i, front to back.
  ghost predicate Links(m: seq<Word>, lists: seq<seq<nat>>) {
    && |lists| == FREE_LISTS_SIZE
    && (forall i {:trigger ListAt(m, lists, i)} :: 0 <= i < FREE_LISTS_SIZE ==> ListAt(m, lists, i))
    && (forall i, j, k, l {:trigger Differ(lists, i, k, j, l)} ::
          0 <= i < |lists| && 0 <= j < |lists| && i != j && 0 <= k < |lists[i]| && 0 <= l < |lists[j]| ==>
          Differ(lists, i, k, j, l))
  }

  ghost predicate Differ(lists: seq<seq<nat>>, i: nat, k: nat, j: nat, l: nat)
    requires i < |lists| && j < |lists| && k < |lists[i]| && l < |lists[j]|
  {
    lists[i][k] != lists[j][l]
  }

  ghost predicate ListAt(m: seq<Word>, lists: seq<seq<nat>>, i: nat)
    requires i < |lists|
  {
    && Chain(m, ChainOf(i, lists[i]))
    && Elem(m, Head(i)) && Prev(m, Head(i)) == 0
    && Elem(m, Tail(i)) && Next(m, Tail(i)) == 0
    && forall k :: 0 <= k < |lists[i]| ==> InHeap(lists[i][k])
  }

  // w is a word of the head or of the tail of one of the lists.
  ghost predicate EndWord(w: nat) { FREE_LISTS <= w < FREE_LISTS + 100 && (w - FREE_LISTS) % 10 < 8 }

  ghost predicate ElementWord(lists: seq<seq<nat>>, w: nat) {
    exists i, k :: 0 <= i < |lists| && 0 <= k < |lists[i]| && lists[i][k] <= w < lists[i][k] + ELEM_WORDS
  }

  // Only links differ between m and m': those of list ends and of elements of lists.
  ghost predicate LinksTouched(m: seq<Word>, m': seq<Word>, lists: seq<seq<nat>>) {
    |m'| == |m| && forall w :: 0 <= w < |m| && m'[w] != m[w] ==> EndWord(w) || ElementWord(lists, w)
  }

  ghost function Without(s: seq<nat>, k: nat): seq<nat> requires k < |s| { s[..k] + s[k + 1..] }

  lemma ChainNodes(m: seq<Word>, lists: seq<seq<nat>>, i: nat, k: nat)
    requires Links(m, lists) && i < FREE_LISTS_SIZE && k < |ChainOf(i, lists[i])|
    ensures var e := ChainOf(i, lists[i])[k];
      (forall w :: e <= w < e + ELEM_WORDS ==> EndWord(w) || ElementWord(lists, w))
      && Elem(m, e)
  {
    assert ListAt(m, lists, i);
    var c := ChainOf(i, lists[i]);
    if 0 < k < |c| - 1 {
      assert c[k] == lists[i][k - 1];
    }
  }

  // Nodes of different lists do not overlap.
  lemma ListsApart(m: seq<Word>, lists: seq<seq<nat>>, i: nat, k: nat, j: nat, l: nat)
    requires Links(m, lists) && i < FREE_LISTS_SIZE && j < FREE_LISTS_SIZE && i != j
    requires k < |ChainOf(i, lists[i])| && l < |ChainOf(j, lists[j])|
    ensures Apart(ChainOf(i, lists[i])[k], ChainOf(j, lists[j])[l])
  {
    assert ListAt(m, lists, i) && ListAt(m, lists, j);
    var c, d := ChainOf(i, lists[i]), ChainOf(j, lists[j]);
    if 0 < k < |c| - 1 {
      assert c[k] == lists[i][k - 1];
    }
    if 0 < l < |d| - 1 {
      assert d[l] == lists[j][l - 1];
    }
    if 0 < k < |c| - 1 && 0 < l < |d| - 1 {
      assert Differ(lists, i, k - 1, j, l - 1);
    }
  }

  lemma LinksRemove(m: seq<Word>, m': seq<Word>, lists: seq<seq<nat>>, i: nat, k: nat)
    requires Links(m, lists) && i < FREE_LISTS_SIZE && k < |lists[i]|
    requires LinkedOut(m, m', ChainOf(i, lists[i])[k], ChainOf(i, lists[i])[k + 2])
    ensures Links(m', lists[i := Without(lists[i], k)]) && LinksTouched(m, m', lists)
  {
    var lists' := lists[i := Without(lists[i], k)];
    forall j | 0 <= j < FREE_LISTS_SIZE ensures ListAt(m', lists', j) {
      if j == i {
        RemoveFromList(m, m', lists, i, k);
      } else {
        OtherList(m, m', lists, i, k, j);
      }
    }
    forall a, b, x, y | 0 <= a < |lists'| && 0 <= b < |lists'| && a != b && 0 <= x < |lists'[a]| && 0 <= y < |lists'[b]|
      ensures Differ(lists', a, x, b, y)
    {
      assert Differ(lists, a, if a == i && x >= k then x + 1 else x, b, if b == i && y >= k then y + 1 else y);
    }
    ChainNodes(m, lists, i, k);
    ChainNodes(m, lists, i, k + 2);
  }

  lemma RemoveFromList(m: seq<Word>, m': seq<Word>, lists: seq<seq<nat>>, i: nat, k: nat)
    requires Links(m, lists) && i < FREE_LISTS_SIZE && k < |lists[i]|
    requires LinkedOut(m, m', ChainOf(i, lists[i])[k], ChainOf(i, lists[i])[k + 2])
    ensures ListAt(m', lists[i := Without(lists[i], k)], i)
  {
    hide Links, Chain, LinkedOut, Without, InHeap;
    ListChain(m, lists, i);
    var c := ChainOf(i, lists[i]);
    ChainDetach(m, m', c, k + 1, k + 2);
    ChainWithout(i, lists[i], k);
    EndsAfterRemove(m, m', c, k);
    AllWithout(lists[i], k);
  }

  lemma ChainWithout(i: nat, s: seq<nat>, k: nat)
    requires k < |s|
    ensures ChainOf(i, s)[..k + 1] + ChainOf(i, s)[k + 2..] == ChainOf(i, Without(s, k))
  {
  }

  lemma AllWithout(s: seq<nat>, k: nat)
    requires k < |s| && forall l :: 0 <= l < |s| ==> InHeap(s[l])
    ensures forall l :: 0 <= l < |Without(s, k)| ==> InHeap(Without(s, k)[l])
  {
  }

  lemma EndsAfterRemove(m: seq<Word>, m': seq<Word>, c: seq<nat>, k: nat)
    requires Chain(m, c) && k + 2 < |c| && LinkedOut(m, m', c[k], c[k + 2])
    ensures Elem(m', c[0]) && Prev(m', c[0]) == Prev(m, c[0])
    ensures Elem(m', c[|c| - 1]) && Next(m', c[|c| - 1]) == Next(m, c[|c| - 1])
  {
    assert Apart(c[0], c[k + 2]) && Apart(c[k], c[|c| - 1]);
  }

  lemma OtherList(m: seq<Word>, m': seq<Word>, lists: seq<seq<nat>>, i: nat, k: nat, j: nat)
    requires Links(m, lists) && i < FREE_LISTS_SIZE && k < |lists[i]|
    requires LinkedOut(m, m', ChainOf(i, lists[i])[k], ChainOf(i, lists[i])[k + 2])
    requires j < FREE_LISTS_SIZE && j != i
    ensures ListAt(m', lists, j)
  {
    assert ListAt(m, lists, j);
    var c, d := ChainOf(i, lists[i]), ChainOf(j, lists[j]);
    forall l, w | 0 <= l < |d| && d[l] <= w < d[l] + ELEM_WORDS ensures m'[w] == m[w] {
      ListsApart(m, lists, i, k, j, l);
      ListsApart(m, lists, i, k + 2, j, l);
    }
    ChainFrame(m, m', d);
    KeepsEnds(m, m', j, d);
  }

  lemma KeepsEnds(m: seq<Word>, m': seq<Word>, i: nat, c: seq<nat>)
    requires |m'| == |m| && |c| >= 2 && c[0] == Head(i) && c[|c| - 1] == Tail(i)
    requires Elem(m, Head(i)) && Elem(m, Tail(i))
    requires forall l, w :: 0 <= l < |c| && c[l] <= w < c[l] + ELEM_WORDS && w < |m| ==> m'[w] == m[w]
    ensures Elem(m', Head(i)) && Elem(m', Tail(i))
    ensures Prev(m', Head(i)) == Prev(m, Head(i)) && Next(m', Tail(i)) == Next(m, Tail(i))
  {
    assert c[0] <= Head(i) < Head(i) + 1 < c[0] + ELEM_WORDS;
    assert c[|c| - 1] <= Tail(i) + 2 < Tail(i) + 3 < c[|c| - 1] + ELEM_WORDS;
  }

  lemma LinksInsert(m: seq<Word>, m': seq<Word>, lists: seq<seq<nat>>, i: nat, k: nat, e: nat)
    requires Links(m, lists) && i < FREE_LISTS_SIZE && k <= |lists[i]|
    requires InHeap(e) && Elem(m, e) && !Listed(lists, e)
    requires LinkedIn(m, m', ChainOf(i, lists[i])[k], e, e, ChainOf(i, lists[i])[k + 1])
    ensures Links(m', lists[i := With(lists[i], k, e)]) && LinksTouched(m, m', lists[i := With(lists[i], k, e)])
  {
    var lists' := lists[i := With(lists[i], k, e)];
    forall j | 0 <= j < FREE_LISTS_SIZE ensures ListAt(m', lists', j) {
      if j == i {
        InsertIntoList(m, m', lists, i, k, e);
      } else {
        OtherListOfInsert(m, m', lists, i, k, e, j);
      }
    }
    forall a, b, x, y | 0 <= a < |lists'| && 0 <= b < |lists'| && a != b && 0 <= x < |lists'[a]| && 0 <= y < |lists'[b]|
      ensures Differ(lists', a, x, b, y)
    {
      if !(a == i && x == k) && !(b == i && y == k) {
        assert Differ(lists, a, if a == i && x > k then x - 1 else x, b, if b == i && y > k then y - 1 else y);
      }
    }
    assert lists'[i][k] == e;
    InsertTouches(m, m', lists, i, k, e);
  }

  ghost predicate Listed(lists: seq<seq<nat>>, e: nat) {
    exists i, k :: 0 <= i < |lists| && 0 <= k < |lists[i]| && lists[i][k] == e
  }

  ghost function With(s: seq<nat>, k: nat, e: nat): seq<nat> requires k <= |s| { s[..k] + [e] + s[k..] }

  lemma InsertTouches(m: seq<Word>, m': seq<Word>, lists: seq<seq<nat>>, i: nat, k: nat, e: nat)
    requires Links(m, lists) && i < FREE_LISTS_SIZE && k <= |lists[i]|
    requires LinkedIn(m, m', ChainOf(i, lists[i])[k], e, e, ChainOf(i, lists[i])[k + 1])
    ensures LinksTouched(m, m', lists[i := With(lists[i], k, e)])
  {
    var lists' := lists[i := With(lists[i], k, e)];
    forall w | 0 <= w < |m| && m'[w] != m[w] ensures EndWord(w) || ElementWord(lists', w) {
      if e <= w < e + ELEM_WORDS {
        assert lists'[i][k] == e;
      } else {
        ChainNodes(m, lists, i, k);
        ChainNodes(m, lists, i, k + 1);
        if !EndWord(w) {
          var j, l :| 0 <= j < |lists| && 0 <= l < |lists[j]| && lists[j][l] <= w < lists[j][l] + ELEM_WORDS;
          assert lists'[j][if j == i && l >= k then l + 1 else l] == lists[j][l];
        }
      }
    }
  }

  lemma NodesApartFrom(m: seq<Word>, lists: seq<seq<nat>>, j: nat, l: nat, e: nat)
    requires Links(m, lists) && j < FREE_LISTS_SIZE && l < |ChainOf(j, lists[j])|
    requires InHeap(e) && !Listed(lists, e)
    ensures Apart(ChainOf(j, lists[j])[l], e)
  {
    assert ListAt(m, lists, j);
    if 0 < l < |ChainOf(j, lists[j])| - 1 {
      assert ChainOf(j, lists[j])[l] == lists[j][l - 1];
    }
  }

  lemma InsertIntoList(m: seq<Word>, m': seq<Word>, lists: seq<seq<nat>>, i: nat, k: nat, e: nat)
    requires Links(m, lists) && i < FREE_LISTS_SIZE && k <= |lists[i]|
    requires InHeap(e) && Elem(m, e) && !Listed(lists, e)
    requires LinkedIn(m, m', ChainOf(i, lists[i])[k], e, e, ChainOf(i, lists[i])[k + 1])
    ensures ListAt(m', lists[i := With(lists[i], k, e)], i)
  {
    hide Links, Listed, Chain, LinkedIn, With, InHeap;
    ListChain(m, lists, i);
    var c := ChainOf(i, lists[i]);
    OneChain(m, e);
    forall l | 0 <= l < |c| ensures Apart(c[l], e) {
      NodesApartFrom(m, lists, i, l, e);
    }
    ChainAttach(m, m', c, k + 1, [e]);
    ChainWith(i, lists[i], k, e);
    EndsAfterInsert(m, m', c, k, e);
    AllWith(lists[i], k, e);
  }

  lemma ChainWith(i: nat, s: seq<nat>, k: nat, e: nat)
    requires k <= |s|
    ensures ChainOf(i, s)[..k + 1] + [e] + ChainOf(i, s)[k + 1..] == ChainOf(i, With(s, k, e))
  {
  }

  lemma AllWith(s: seq<nat>, k: nat, e: nat)
    requires k <= |s| && InHeap(e) && forall l :: 0 <= l < |s| ==> InHeap(s[l])
    ensures forall l :: 0 <= l < |With(s, k, e)| ==> InHeap(With(s, k, e)[l])
  {
  }

  lemma ListChain(m: seq<Word>, lists: seq<seq<nat>>, i: nat)
    requires Links(m, lists) && i < FREE_LISTS_SIZE
    ensures |lists| == FREE_LISTS_SIZE && ListAt(m, lists, i)
  {
    assert ListAt(m, lists, i);
  }

  lemma OneChain(m: seq<Word>, e: nat)
    requires Elem(m, e)
    ensures Chain(m, [e])
  {
  }

  lemma EndsAfterInsert(m: seq<Word>, m': seq<Word>, c: seq<nat>, k: nat, e: nat)
    requires Chain(m, c) && k + 1 < |c| && LinkedIn(m, m', c[k], e, e, c[k + 1])
    requires forall l :: 0 <= l < |c| ==> Apart(c[l], e)
    ensures Elem(m', c[0]) && Prev(m', c[0]) == Prev(m, c[0])
    ensures Elem(m', c[|c| - 1]) && Next(m', c[|c| - 1]) == Next(m, c[|c| - 1])
  {
    assert k + 1 < |c| ==> Apart(c[0], c[k + 1]);
    assert k < |c| - 1 ==> Apart(c[k], c[|c| - 1]);
  }

  lemma OtherListOfInsert(m: seq<Word>, m': seq<Word>, lists: seq<seq<nat>>, i: nat, k: nat, e: nat, j: nat)
    requires Links(m, lists) && i < FREE_LISTS_SIZE && k <= |lists[i]|
    requires InHeap(e) && Elem(m, e) && !Listed(lists, e)
    requires LinkedIn(m, m', ChainOf(i, lists[i])[k], e, e, ChainOf(i, lists[i])[k + 1])
    requires j < FREE_LISTS_SIZE && j != i
    ensures ListAt(m', lists, j)
  {
    assert ListAt(m, lists, j);
    var c, d := ChainOf(i, lists[i]), ChainOf(j, lists[j]);
    forall l, w | 0 <= l < |d| && d[l] <= w < d[l] + ELEM_WORDS ensures m'[w] == m[w] {
      ListsApart(m, lists, i, k, j, l);
      ListsApart(m, lists, i, k + 1, j, l);
      NodesApartFrom(m, lists, j, l, e);
    }
    ChainFrame(m, m', d);
    KeepsEnds(m, m', j, d);
  }

  // Writing elsewhere leaves the lists as they are.
  lemma LinksFrame(m: seq<Word>, m': seq<Word>, lists: seq<seq<nat>>)
    requires Links(m, lists) && |m'| == |m|
    requires forall w :: 0 <= w < |m| && (EndWord(w) || ElementWord(lists, w)) ==> m'[w] == m[w]
    ensures Links(m', lists)
  {
    forall i | 0 <= i < FREE_LISTS_SIZE ensures ListAt(m', lists, i) {
      assert ListAt(m, lists, i);
      var c := ChainOf(i, lists[i]);
      forall l, w | 0 <= l < |c| && c[l] <= w < c[l] + ELEM_WORDS ensures m'[w] == m[w] {
        ChainNodes(m, lists, i, l);
      }
      ChainFrame(m, m', c);
      KeepsEnds(m, m', i, c);
    }
    assert forall i, j, k, l {:trigger Differ(lists, i, k, j, l)} ::
          0 <= i < |lists| && 0 <= j < |lists| && i != j && 0 <= k < |lists[i]| && 0 <= l < |lists[j]| ==>
          Differ(lists, i, k, j, l);
  }
}
