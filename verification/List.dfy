/** The intrusive doubly linked list of malloclab/list.c over the words of memory. */
module List {
  import opened Memory

  // struct list_elem: prev in words 0 and 1, next in words 2 and 3.
  const ELEM_WORDS := 4

  ghost predicate Elem(m: seq<Word>, e: nat) {
    0 < e && e + ELEM_WORDS <= |m| < WORD_VALUES * WORD_VALUES
  }

  ghost function Prev(m: seq<Word>, e: nat): nat requires Elem(m, e) { Ptr(m, e) }
  ghost function Next(m: seq<Word>, e: nat): nat requires Elem(m, e) { Ptr(m, e + 2) }

  ghost predicate Apart(e: nat, f: nat) { e + ELEM_WORDS <= f || f + ELEM_WORDS <= e }

  ghost predicate Linked(m: seq<Word>, p: nat, n: nat) {
    Elem(m, p) && Elem(m, n) && Next(m, p) == n && Prev(m, n) == p
  }

  // The elements of c are linked one to the next, both ways.
  ghost predicate Chain(m: seq<Word>, c: seq<nat>) {
    && (forall i :: 0 <= i < |c| ==> Elem(m, c[i]))
    && (forall i, j :: 0 <= i < j < |c| ==> Apart(c[i], c[j]))
    && (forall i, j :: 0 <= i < |c| && j == i + 1 < |c| ==> Linked(m, c[i], c[j]))
  }

  // m' is m with the segment first...last (inclusive) linked in between p and n.
  ghost predicate LinkedIn(m: seq<Word>, m': seq<Word>, p: nat, first: nat, last: nat, n: nat) {
    && |m'| == |m|
    && (forall i :: 0 <= i < |m| ==>
        first <= i < first + 2 || last + 2 <= i < last + 4 || p + 2 <= i < p + 4 || n <= i < n + 2 || m'[i] == m[i])
    && Linked(m', p, first) && Linked(m', last, n)
  }

  // m' is m with whatever was between p and n linked out.
  ghost predicate LinkedOut(m: seq<Word>, m': seq<Word>, p: nat, n: nat) {
    && |m'| == |m|
    && (forall i :: 0 <= i < |m| ==> p + 2 <= i < p + 4 || n <= i < n + 2 || m'[i] == m[i])
    && Linked(m', p, n)
  }

  // Initializes the list at address list as an empty list.
  method ListInit(mem: array<Word>, list: nat)
    requires Elem(mem[..], list) && Elem(mem[..], list + ELEM_WORDS)
    modifies mem
    ensures forall i :: 0 <= i < mem.Length && !(list <= i < list + 2 * ELEM_WORDS) ==> mem[i] == old(mem[i])
    ensures Linked(mem[..], list, list + ELEM_WORDS)
    ensures Prev(mem[..], list) == 0 && Next(mem[..], list + ELEM_WORDS) == 0
  {
    Store(mem, list, 0);
    Store(mem, list + 2, list + ELEM_WORDS);
    Store(mem, list + ELEM_WORDS, list);
    Store(mem, list + ELEM_WORDS + 2, 0);
  }

  method ListInsert(mem: array<Word>, before: nat, elem: nat)
    requires Elem(mem[..], before) && Elem(mem[..], elem) && Elem(mem[..], Prev(mem[..], before))
    requires Apart(before, elem) && Apart(before, Prev(mem[..], before)) && Apart(elem, Prev(mem[..], before))
    modifies mem
    ensures LinkedIn(old(mem[..]), mem[..], old(Prev(mem[..], before)), elem, elem, before)
  {
    ghost var m := mem[..];
    var p := Load(mem, before);
    Store(mem, elem, p);
    ghost var m1 := mem[..];
    Store(mem, elem + 2, before);
    ghost var m2 := mem[..];
    PtrKept(m, m1, elem, before);
    PtrKept(m1, m2, elem + 2, before);
    p := Load(mem, before);
    Store(mem, p + 2, elem);
    ghost var m3 := mem[..];
    Store(mem, before, elem);
    NowLinkedIn(m, m1, m2, m3, mem[..], p, elem, elem, before);
  }

  // list is the address of its head; the tail follows the head.
  method ListPushFront(mem: array<Word>, list: nat, elem: nat)
    requires Elem(mem[..], list) && Elem(mem[..], elem) && Apart(list, elem)
    requires
      var first := Next(mem[..], list);
      Linked(mem[..], list, first) && Apart(list, first) && Apart(elem, first)
    modifies mem
    ensures LinkedIn(old(mem[..]), mem[..], list, elem, elem, old(Next(mem[..], list)))
  {
    var first := Load(mem, list + 2);
    ListInsert(mem, first, elem);
  }

  method ListPushBack(mem: array<Word>, list: nat, elem: nat)
    requires Elem(mem[..], list + ELEM_WORDS) && Elem(mem[..], elem) && Apart(list + ELEM_WORDS, elem)
    requires
      var last := Prev(mem[..], list + ELEM_WORDS);
      Elem(mem[..], last) && Apart(last, list + ELEM_WORDS) && Apart(elem, last)
    modifies mem
    ensures LinkedIn(old(mem[..]), mem[..], old(Prev(mem[..], list + ELEM_WORDS)), elem, elem, list + ELEM_WORDS)
  {
    ListInsert(mem, list + ELEM_WORDS, elem);
  }

  method ListRemove(mem: array<Word>, elem: nat) returns (n: nat)
    requires Elem(mem[..], elem) && Elem(mem[..], Prev(mem[..], elem)) && Elem(mem[..], Next(mem[..], elem))
    requires Apart(Prev(mem[..], elem), elem) && Apart(elem, Next(mem[..], elem))
    requires Apart(Prev(mem[..], elem), Next(mem[..], elem))
    modifies mem
    ensures LinkedOut(old(mem[..]), mem[..], old(Prev(mem[..], elem)), old(Next(mem[..], elem)))
    ensures n == old(Next(mem[..], elem))
  {
    n := Detach(mem, elem, elem);
  }

  // Moves first through last (exclusive) to just before `before`, which is not one of them; m1 is the memory in
  // between. When they are there already, everything is as it was in the end.
  method ListSplice(mem: array<Word>, before: nat, first: nat, last: nat) returns (ghost m1: seq<Word>)
    requires Elem(mem[..], before) && Elem(mem[..], first) && Elem(mem[..], last)
    requires first != last ==>
      && var q, l := Prev(mem[..], first), Prev(mem[..], last);
      && Linked(mem[..], q, first) && Linked(mem[..], l, last) && Apart(first, last) && Apart(q, first) && Apart(q, l)
      && Apart(q, last) && Apart(l, last) && (l == first || Apart(l, first))
    requires first != last && before != last ==>
      && var p, q, l := Prev(mem[..], before), Prev(mem[..], first), Prev(mem[..], last);
      && Linked(mem[..], p, before) && Apart(p, before) && Apart(before, first) && Apart(before, last)
      && Apart(l, before) && (q == before || Apart(q, before)) && Apart(p, q) && Apart(p, l) && Apart(p, first)
      && Apart(p, last)
    modifies mem
    ensures first == last || before == last ==> mem[..] == old(mem[..])
    ensures first != last ==> LinkedOut(old(mem[..]), m1, old(Prev(mem[..], first)), last)
    ensures first != last ==>
      LinkedIn(m1, mem[..], old(if before == last then Prev(mem[..], first) else Prev(mem[..], before)), first,
               old(Prev(mem[..], last)), before)
  {
    hide Linked, Ptr, LinkedIn, LinkedOut;
    if first == last {
      return mem[..];
    }
    ghost var m := mem[..];
    var l := Load(mem, last);
    LinkEnds(m, Prev(m, first), first, l, last);
    if before != last {
      LinkEnds(m, Prev(m, before), before, l, last);
    }
    var n := Detach(mem, first, l);
    m1 := mem[..];
    EndsKept(m, m1, Prev(m, first), last, before);
    Attach(mem, before, first, l);
    if before == last {
      BackAgain(m, m1, mem[..], Prev(m, first), first, l, last);
    }
  }

  // A segment that is linked out and in again at the same place.
  lemma BackAgain(m: seq<Word>, m1: seq<Word>, m': seq<Word>, q: nat, first: nat, l: nat, last: nat)
    requires Linked(m, q, first) && Linked(m, l, last)
    requires LinkedOut(m, m1, q, last) && LinkedIn(m1, m', q, first, l, last)
    ensures m' == m
  {
    hide Ptr;
    SameWords(m, m', q + 2);
    SameWords(m, m', first);
    SameWords(m, m', l + 2);
    SameWords(m, m', last);
  }

  lemma SameWords(m: seq<Word>, m': seq<Word>, a: nat)
    requires a + 1 < |m| && a + 1 < |m'| && Ptr(m, a) == Ptr(m', a)
    ensures m[a] == m'[a] && m[a + 1] == m'[a + 1]
  {
  }

  lemma LinkEnds(m: seq<Word>, q: nat, first: nat, l: nat, last: nat)
    requires Linked(m, q, first) && Linked(m, l, last)
    ensures Elem(m, q) && Elem(m, first) && Elem(m, l) && Elem(m, last) && Prev(m, first) == q && Next(m, l) == last
  {
  }

  // What comes before an element is the same after others were linked out.
  lemma EndsKept(m: seq<Word>, m1: seq<Word>, q: nat, last: nat, before: nat)
    requires LinkedOut(m, m1, q, last) && Elem(m, before) && Elem(m, q) && Elem(m, last)
    requires before == last || Apart(before, last)
    requires q == before || Apart(q, before)
    ensures (forall e :: Elem(m, e) ==> Elem(m1, e)) && Prev(m1, before) == if before == last then q
      else Prev(m, before)
  {
  }

  // Cleanly removes first...last (inclusive) from its current list.
  method Detach(mem: array<Word>, first: nat, last: nat) returns (n: nat)
    requires Elem(mem[..], first) && Elem(mem[..], last)
    requires
      && var p, n := Prev(mem[..], first), Next(mem[..], last);
      && Elem(mem[..], p) && Elem(mem[..], n)
      && Apart(p, first) && Apart(p, last) && Apart(first, n) && Apart(last, n) && Apart(p, n)
    modifies mem
    ensures LinkedOut(old(mem[..]), mem[..], old(Prev(mem[..], first)), old(Next(mem[..], last)))
    ensures n == old(Next(mem[..], last))
  {
    hide Ptr;
    ghost var m := mem[..];
    var p := Load(mem, first);
    n := Load(mem, last + 2);
    Store(mem, p + 2, n);
    ghost var m1 := mem[..];
    PtrKept(m, m1, p + 2, last + 2);
    PtrKept(m, m1, p + 2, first);
    n := Load(mem, last + 2);
    p := Load(mem, first);
    Store(mem, n, p);
    PtrKept(m1, mem[..], n, p + 2);
  }

  // Puts first...last (inclusive) into a list, just before `before`.
  method Attach(mem: array<Word>, before: nat, first: nat, last: nat)
    requires Elem(mem[..], before) && Elem(mem[..], first) && Elem(mem[..], last)
    requires
      && var p := Prev(mem[..], before);
      && Elem(mem[..], p)
      && Apart(p, first) && Apart(p, last) && Apart(before, first) && Apart(before, last) && Apart(p, before)
      && (first == last || Apart(first, last))
    modifies mem
    ensures LinkedIn(old(mem[..]), mem[..], old(Prev(mem[..], before)), first, last, before)
  {
    ghost var m := mem[..];
    var p := Load(mem, before);
    Store(mem, first, p);
    ghost var m1 := mem[..];
    Store(mem, last + 2, before);
    ghost var m2 := mem[..];
    PtrKept(m, m1, first, before);
    PtrKept(m1, m2, last + 2, before);
    p := Load(mem, before);
    Store(mem, p + 2, first);
    ghost var m3 := mem[..];
    Store(mem, before, last);
    NowLinkedIn(m, m1, m2, m3, mem[..], p, first, last, before);
  }

  lemma PtrKept(m: seq<Word>, m': seq<Word>, a: nat, b: nat)
    requires SameBut(m, m', a) && b + 1 < |m| && (b + 2 <= a || a + 2 <= b)
    ensures Ptr(m', b) == Ptr(m, b)
  {
  }

  // The four pointers written one after the other.
  lemma NowLinkedIn(m: seq<Word>, m1: seq<Word>, m2: seq<Word>, m3: seq<Word>, m4: seq<Word>,
                    p: nat, first: nat, last: nat, n: nat)
    requires Elem(m, p) && Elem(m, first) && Elem(m, last) && Elem(m, n)
    requires Apart(p, first) && Apart(p, last) && Apart(n, first) && Apart(n, last) && Apart(p, n)
    requires first == last || Apart(first, last)
    requires SameBut(m, m1, first) && Ptr(m1, first) == p
    requires SameBut(m1, m2, last + 2) && Ptr(m2, last + 2) == n
    requires SameBut(m2, m3, p + 2) && Ptr(m3, p + 2) == first
    requires SameBut(m3, m4, n) && Ptr(m4, n) == last
    ensures LinkedIn(m, m4, p, first, last, n)
  {
    PtrKept(m1, m2, last + 2, first);
    PtrKept(m2, m3, p + 2, first);
    PtrKept(m3, m4, n, first);
    PtrKept(m2, m3, p + 2, last + 2);
    PtrKept(m3, m4, n, last + 2);
    PtrKept(m3, m4, n, p + 2);
    hide Ptr;
  }

  lemma ChainFrame(m: seq<Word>, m': seq<Word>, c: seq<nat>)
    requires Chain(m, c) && |m'| == |m|
    requires forall k, i :: 0 <= k < |c| && c[k] <= i < c[k] + ELEM_WORDS ==> m'[i] == m[i]
    ensures Chain(m', c)
  {
    forall i, j | 0 <= i < |c| && j == i + 1 < |c|
      ensures Linked(m', c[i], c[j])
    {
      assert Linked(m, c[i], c[j]);
    }
  }

  lemma ChainDetach(m: seq<Word>, m': seq<Word>, c: seq<nat>, j: nat, k: nat)
    requires Chain(m, c) && 1 <= j < k < |c|
    requires LinkedOut(m, m', c[j - 1], c[k])
    ensures Chain(m', c[..j] + c[k..]) && Chain(m', c[j..k])
  {
    var d := c[..j] + c[k..];
    forall x, y | 0 <= x < |d| && y == x + 1 < |d|
      ensures Linked(m', d[x], d[y])
    {
      if x == j - 1 {
      } else {
        var i := if x < j then x else x - j + k;
        KeepLink(m, m', c, j, k, i);
      }
    }
    DetachedSegment(m, m', c, j, k);
  }

  lemma DetachedSegment(m: seq<Word>, m': seq<Word>, c: seq<nat>, j: nat, k: nat)
    requires Chain(m, c) && 1 <= j < k < |c|
    requires LinkedOut(m, m', c[j - 1], c[k])
    ensures Chain(m', c[j..k])
  {
    forall x, y | 0 <= x < k - j && y == x + 1 < k - j
      ensures Linked(m', c[j..k][x], c[j..k][y])
    {
      KeepLink(m, m', c, j, k, j + x);
    }
  }

  lemma KeepLink(m: seq<Word>, m': seq<Word>, c: seq<nat>, j: nat, k: nat, i: nat)
    requires Chain(m, c) && 1 <= j < k < |c| && i + 1 < |c| && i != j - 1 && i != k - 1
    requires LinkedOut(m, m', c[j - 1], c[k])
    ensures Linked(m', c[i], c[i + 1])
  {
    assert Linked(m, c[i], c[i + 1]);
    assert i < j - 1 ==> Apart(c[i], c[j - 1]);
    assert i > j - 1 ==> Apart(c[j - 1], c[i]);
    assert i < k ==> Apart(c[i], c[k]);
    assert i + 1 < k ==> Apart(c[i + 1], c[k]);
    assert i + 1 > k ==> Apart(c[k], c[i + 1]);
    assert i + 1 < j - 1 ==> Apart(c[i + 1], c[j - 1]);
    assert i > j - 1 ==> Apart(c[j - 1], c[i + 1]);
  }

  lemma ChainAttach(m: seq<Word>, m': seq<Word>, c: seq<nat>, k: nat, s: seq<nat>)
    requires Chain(m, c) && 1 <= k < |c| && Chain(m, s) && s != []
    requires forall i, j :: 0 <= i < |c| && 0 <= j < |s| ==> Apart(c[i], s[j])
    requires LinkedIn(m, m', c[k - 1], s[0], s[|s| - 1], c[k])
    ensures Chain(m', c[..k] + s + c[k..])
  {
    var d := c[..k] + s + c[k..];
    forall i | 0 <= i < |d| ensures Elem(m', d[i]) && d[i] == Attached(c, k, s, i) {
    }
    forall i, j | 0 <= i < j < |d| ensures Apart(d[i], d[j]) {
      AttachedApart(m, c, k, s, i, j);
    }
    forall i, j | 0 <= i < |d| && j == i + 1 < |d|
      ensures Linked(m', d[i], d[j])
    {
      AttachedLink(m, m', c, k, s, i);
    }
  }

  function Attached(c: seq<nat>, k: nat, s: seq<nat>, i: nat): nat
    requires k <= |c| && i < |c| + |s|
  {
    if i < k then c[i] else if i < k + |s| then s[i - k] else c[i - |s|]
  }

  lemma AttachedApart(m: seq<Word>, c: seq<nat>, k: nat, s: seq<nat>, i: nat, j: nat)
    requires Chain(m, c) && k <= |c| && Chain(m, s) && i < j < |c| + |s|
    requires forall i, j :: 0 <= i < |c| && 0 <= j < |s| ==> Apart(c[i], s[j])
    ensures Apart(Attached(c, k, s, i), Attached(c, k, s, j))
  {
  }

  lemma AttachedLink(m: seq<Word>, m': seq<Word>, c: seq<nat>, k: nat, s: seq<nat>, i: nat)
    requires Chain(m, c) && 1 <= k < |c| && Chain(m, s) && s != [] && i + 1 < |c| + |s|
    requires forall i, j :: 0 <= i < |c| && 0 <= j < |s| ==> Apart(c[i], s[j])
    requires LinkedIn(m, m', c[k - 1], s[0], s[|s| - 1], c[k])
    ensures Linked(m', Attached(c, k, s, i), Attached(c, k, s, i + 1))
  {
    if i == k - 1 || i == k + |s| - 1 {
    } else if k <= i < k + |s| {
      KeepSegmentLink(m, m', c, k, s, i - k);
    } else {
      KeepChainLink(m, m', c, k, s, if i < k then i else i - |s|);
    }
  }

  lemma KeepSegmentLink(m: seq<Word>, m': seq<Word>, c: seq<nat>, k: nat, s: seq<nat>, i: nat)
    requires Chain(m, c) && 1 <= k < |c| && Chain(m, s) && i + 1 < |s|
    requires forall i, j :: 0 <= i < |c| && 0 <= j < |s| ==> Apart(c[i], s[j])
    requires LinkedIn(m, m', c[k - 1], s[0], s[|s| - 1], c[k])
    ensures Linked(m', s[i], s[i + 1])
  {
    assert Linked(m, s[i], s[i + 1]);
    assert Apart(c[k - 1], s[i]) && Apart(c[k], s[i]) && Apart(c[k - 1], s[i + 1]) && Apart(c[k], s[i + 1]);
    assert Apart(s[i], s[|s| - 1]) && Apart(s[0], s[i + 1]);
    assert i == 0 || Apart(s[0], s[i]);
    assert i + 1 == |s| - 1 || Apart(s[i + 1], s[|s| - 1]);
  }

  lemma KeepChainLink(m: seq<Word>, m': seq<Word>, c: seq<nat>, k: nat, s: seq<nat>, i: nat)
    requires Chain(m, c) && 1 <= k < |c| && Chain(m, s) && s != [] && i + 1 < |c| && i != k - 1
    requires forall i, j :: 0 <= i < |c| && 0 <= j < |s| ==> Apart(c[i], s[j])
    requires LinkedIn(m, m', c[k - 1], s[0], s[|s| - 1], c[k])
    ensures Linked(m', c[i], c[i + 1])
  {
    assert Linked(m, c[i], c[i + 1]);
    assert Apart(c[i], s[0]) && Apart(c[i], s[|s| - 1]) && Apart(c[i + 1], s[0]) && Apart(c[i + 1], s[|s| - 1]);
    assert i < k - 1 ==> Apart(c[i], c[k - 1]) && Apart(c[i], c[k]) && Apart(c[i + 1], c[k]);
    assert i > k - 1 ==> Apart(c[k - 1], c[i]) && Apart(c[k - 1], c[i + 1]) && Apart(c[k], c[i + 1]);
    assert i + 1 == k - 1 || i + 1 > k || Apart(c[i + 1], c[k - 1]);
  }
}
