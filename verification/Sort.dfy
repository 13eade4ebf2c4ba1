/** list_sort of malloclab/list.c: natural merge sort by splicing list elements in place. */
module ListSort {
  import opened Memory
  import opened List
  import opened Order
  import opened Powers

  // Only words of list elements in s differ between m and m'.
  ghost predicate OnlyLinks(m: seq<Word>, m': seq<Word>, s: set<nat>) {
    |m'| == |m| &&
    forall i :: 0 <= i < |m| && m'[i] != m[i] ==> exists e :: e in s && e <= i < e + ELEM_WORDS
  }

  ghost function Elements(c: seq<nat>): set<nat> { set e | e in c }

  ghost function Moved(c: seq<nat>, i: nat, j: nat): (c': seq<nat>)
    requires i <= j < |c|
    ensures |c'| == |c|
    ensures forall x :: 0 <= x < |c| ==> c'[x] == if x < i || j < x then c[x] else if x == i then c[j] else c[x - 1]
  {
    c[..i] + [c[j]] + c[i..j] + c[j + 1..]
  }

  lemma MovedElements(c: seq<nat>, i: nat, j: nat)
    requires i <= j < |c|
    ensures Elements(Moved(c, i, j)) == Elements(c)
  {
    var c' := Moved(c, i, j);
    forall x | 0 <= x < |c| ensures c[x] in c' {
      assert c[x] == c'[if x < i || j < x then x else if x == j then i else x + 1];
    }
  }

  // Moves the element at j to just before the one at i.
  method MoveBefore(mem: array<Word>, a0: nat, a1b0: nat, ghost c: seq<nat>, ghost i: nat, ghost j: nat)
    requires Chain(mem[..], c) && 1 <= i < j && j + 1 < |c|
    requires a0 == c[i] && a1b0 == c[j + 1]
    modifies mem
    ensures Chain(mem[..], Moved(c, i, j)) && OnlyLinks(old(mem[..]), mem[..], Elements(c))
  {
    ghost var m := mem[..];
    assert Linked(m, c[i - 1], c[i]) && Linked(m, c[j - 1], c[j]) && Linked(m, c[j], c[j + 1]);
    assert Apart(c[i], c[j]) && Apart(c[j], c[j + 1]) && Apart(c[i], c[j + 1]) && Apart(c[i - 1], c[j - 1])
        && Apart(c[j - 1], c[j]) && Apart(c[i - 1], c[j]) && Apart(c[i - 1], c[j + 1]) && Apart(c[j - 1], c[j + 1])
        && Apart(c[i - 1], c[i]);
    assert j - 1 == i || Apart(c[i], c[j - 1]);
    var first := Load(mem, a1b0);
    ghost var m1 := ListSplice(mem, a0, first, a1b0);
    MoveChain(m, m1, mem[..], c, i, j);
    MoveTouchesLinks(m, m1, mem[..], c, i, j);
  }

  lemma MoveChain(m: seq<Word>, m1: seq<Word>, m': seq<Word>, c: seq<nat>, i: nat, j: nat)
    requires Chain(m, c) && 1 <= i < j && j + 1 < |c|
    requires LinkedOut(m, m1, c[j - 1], c[j + 1])
    requires LinkedIn(m1, m', c[i - 1], c[j], c[j], c[i])
    ensures Chain(m', Moved(c, i, j))
  {
    hide Chain, LinkedIn, LinkedOut, Moved;
    ChainDetach(m, m1, c, j, j + 1);
    assert c[j..j + 1] == [c[j]];
    AttachOne(m, m1, m', c, c[..j] + c[j + 1..], i, j);
  }

  lemma AttachOne(m: seq<Word>, m1: seq<Word>, m': seq<Word>, c: seq<nat>, d: seq<nat>, i: nat, j: nat)
    requires Chain(m, c) && 1 <= i < j && j + 1 < |c| && d == c[..j] + c[j + 1..]
    requires Chain(m1, d) && Chain(m1, [c[j]])
    requires LinkedIn(m1, m', c[i - 1], c[j], c[j], c[i])
    ensures Chain(m', Moved(c, i, j))
  {
    forall x | 0 <= x < |d| ensures Apart(d[x], c[j]) {
      if x < j {
        assert Apart(c[x], c[j]);
      } else {
        assert Apart(c[j], c[x + 1]);
      }
    }
    hide Chain, Linked, LinkedIn, Apart, Moved;
    MovedAsParts(c, d, i, j);
    ChainAttach(m1, m', d, i, [c[j]]);
  }

  lemma MovedAsParts(c: seq<nat>, d: seq<nat>, i: nat, j: nat)
    requires 1 <= i < j < |c| && d == c[..j] + c[j + 1..]
    ensures |d| == |c| - 1 && d[i - 1] == c[i - 1] && d[..i] + [c[j]] + d[i..] == Moved(c, i, j)
    ensures i < |d| && d[i] == c[i]
  {
    assert d[..i] == c[..i] && d[i..] == c[i..j] + c[j + 1..];
  }

  lemma MoveTouchesLinks(m: seq<Word>, m1: seq<Word>, m': seq<Word>, c: seq<nat>, i: nat, j: nat)
    requires 1 <= i < j && j + 1 < |c|
    requires LinkedOut(m, m1, c[j - 1], c[j + 1])
    requires LinkedIn(m1, m', c[i - 1], c[j], c[j], c[i])
    ensures OnlyLinks(m, m', Elements(c))
  {
    assert c[j - 1] in Elements(c) && c[j + 1] in Elements(c) && c[i - 1] in Elements(c)
        && c[j] in Elements(c) && c[i] in Elements(c);
  }

  lemma ChainLink(m: seq<Word>, c: seq<nat>, i: nat)
    requires Chain(m, c) && i + 1 < |c|
    ensures Linked(m, c[i], c[i + 1])
  {
  }

  // Returns the end (exclusive) of the nondecreasing run that starts at a and ends not after b.
  method FindEndOfRun(mem: array<Word>, a: nat, b: nat, less: Less, ghost c: seq<nat>, ghost i: nat)
    returns (e: nat, ghost j: nat, ghost comparisons: nat)
    requires StrictWeakOrder(less) && Chain(mem[..], c)
    requires i < |c| - 1 && a == c[i] && b == c[|c| - 1]
    ensures i < j < |c| && e == c[j]
    ensures Sorted(less, c[i..j])
    ensures j == |c| - 1 || less(c[j], c[j - 1])
    ensures comparisons <= j - i
  {
    hide StrictWeakOrder, Sorted, Chain;
    ChainLink(mem[..], c, i);
    Distinct(mem[..], c);
    OneIsSorted(less, c, i);
    e := Load(mem, a + 2);
    j, comparisons := i + 1, 0;
    while e != b
      invariant i < j < |c| && e == c[j] && comparisons == j - i - 1
      invariant Sorted(less, c[i..j])
      decreases |c| - j
    {
      ChainLink(mem[..], c, j - 1);
      var p := Load(mem, e);
      comparisons := comparisons + 1;
      if less(e, p) {
        break;
      }
      SortedFurther(less, c, i, j);
      ChainLink(mem[..], c, j);
      e := Load(mem, e + 2);
      j := j + 1;
    }
  }

  lemma OneIsSorted(less: Less, c: seq<nat>, i: nat)
    requires i < |c|
    ensures Sorted(less, c[i..i + 1])
  {
  }

  lemma SortedFurther(less: Less, c: seq<nat>, i: nat, j: nat)
    requires StrictWeakOrder(less) && i < j < |c| && Sorted(less, c[i..j]) && !less(c[j], c[j - 1])
    ensures Sorted(less, c[i..j + 1])
  {
    SortedExtend(less, c[i..j], c[j]);
    assert c[i..j] + [c[j]] == c[i..j + 1];
  }

  lemma SamePlace(m: seq<Word>, c: seq<nat>, i: nat, j: nat)
    requires Chain(m, c) && i < |c| && j < |c| && c[i] == c[j]
    ensures i == j
  {
    Distinct(m, c);
  }

  lemma Distinct(m: seq<Word>, c: seq<nat>)
    requires Chain(m, c)
    ensures forall i, j :: 0 <= i < j < |c| ==> c[i] != c[j]
  {
    forall i, j | 0 <= i < j < |c| ensures c[i] != c[j] {
      assert Apart(c[i], c[j]);
    }
  }

  lemma SortedExtend(less: Less, s: seq<nat>, x: nat)
    requires StrictWeakOrder(less) && Sorted(less, s)
    requires s == [] || !less(x, s[|s| - 1])
    ensures Sorted(less, s + [x])
  {
    forall i | 0 <= i < |s| ensures !less(x, s[i]) {
      Between(less, x, s[|s| - 1], s[i]);
    }
  }

  // The state of a merge of the sorted c[lo..mid] and c[mid..hi] with c[lo..i] done,
  // c[i..j] left of the first and c[j..hi] left of the second.
  ghost predicate Merging(less: Less, c: seq<nat>, lo: nat, i: nat, j: nat, hi: nat) {
    && lo <= i <= j <= hi <= |c|
    && (forall x, y :: lo <= x < y < j ==> !less(c[y], c[x]))
    && (forall x, y :: j <= x < y < hi ==> !less(c[y], c[x]))
    && (forall x, y :: lo <= x < i && j <= y < hi ==> !less(c[y], c[x]))
  }

  lemma MergeTakesFirst(less: Less, c: seq<nat>, lo: nat, i: nat, j: nat, hi: nat)
    requires StrictWeakOrder(less) && Merging(less, c, lo, i, j, hi) && i < j < hi
    requires !less(c[j], c[i])
    ensures Merging(less, c, lo, i + 1, j, hi)
  {
    forall y | j <= y < hi ensures !less(c[y], c[i]) {
      Between(less, c[y], c[j], c[i]);
    }
  }

  lemma MergeTakesSecond(less: Less, c: seq<nat>, lo: nat, i: nat, j: nat, hi: nat)
    requires StrictWeakOrder(less) && Merging(less, c, lo, i, j, hi) && i < j < hi
    requires less(c[j], c[i])
    ensures Merging(less, Moved(c, i, j), lo, i + 1, j + 1, hi)
    ensures StablePermutation(less, c[lo..hi], Moved(c, i, j)[lo..hi])
  {
    LessThanFirst(less, c, lo, i, j, hi);
    MovedParts(c, lo, i, j, hi);
    MovedMerging(less, c, lo, i, j, hi);
    hide StablePermutation, Merging, Moved;
    MoveKeepsClasses(less, c[lo..i], c[i..j], c[j], c[j + 1..hi]);
  }

  lemma LessThanFirst(less: Less, c: seq<nat>, lo: nat, i: nat, j: nat, hi: nat)
    requires StrictWeakOrder(less) && Merging(less, c, lo, i, j, hi) && i < j < hi && less(c[j], c[i])
    ensures forall y :: i <= y < j ==> less(c[j], c[y]) && !less(c[y], c[j])
  {
    forall y | i <= y < j ensures less(c[j], c[y]) && !less(c[y], c[j]) {
      Between(less, c[j], c[y], c[i]);
    }
  }

  lemma MovedMerging(less: Less, c: seq<nat>, lo: nat, i: nat, j: nat, hi: nat)
    requires Merging(less, c, lo, i, j, hi) && i < j < hi
    requires forall y :: i <= y < j ==> less(c[j], c[y]) && !less(c[y], c[j])
    ensures Merging(less, Moved(c, i, j), lo, i + 1, j + 1, hi)
  {
  }

  lemma MovedParts(c: seq<nat>, lo: nat, i: nat, j: nat, hi: nat)
    requires lo <= i < j < hi <= |c|
    ensures c[lo..hi] == c[lo..i] + c[i..j] + [c[j]] + c[j + 1..hi]
    ensures Moved(c, i, j)[lo..hi] == c[lo..i] + [c[j]] + c[i..j] + c[j + 1..hi]
  {
    var d, e := Moved(c, i, j), c[lo..i] + [c[j]] + c[i..j] + c[j + 1..hi];
    forall k | 0 <= k < hi - lo ensures d[lo..hi][k] == e[k] {
      assert d[lo..hi][k] == d[lo + k];
    }
  }

  // c0 with its elements from lo to hi merged as far as Merging says.
  ghost predicate PartlyMerged(less: Less, c0: seq<nat>, c: seq<nat>, lo: nat, i: nat, j: nat, hi: nat) {
    && Merging(less, c, lo, i, j, hi)
    && |c| == |c0| && c[..lo] == c0[..lo] && c[hi..] == c0[hi..]
    && Elements(c) == Elements(c0)
    && StablePermutation(less, c0[lo..hi], c[lo..hi])
  }

  lemma MergeStep(less: Less, c0: seq<nat>, c: seq<nat>, lo: nat, i: nat, j: nat, hi: nat)
    requires StrictWeakOrder(less) && PartlyMerged(less, c0, c, lo, i, j, hi) && i < j < hi
    ensures less(c[j], c[i]) ==> PartlyMerged(less, c0, Moved(c, i, j), lo, i + 1, j + 1, hi)
    ensures !less(c[j], c[i]) ==> PartlyMerged(less, c0, c, lo, i + 1, j, hi)
  {
    if less(c[j], c[i]) {
      MergeTakesSecond(less, c, lo, i, j, hi);
      MovedElements(c, i, j);
      var c' := Moved(c, i, j);
      assert c'[..lo] == c[..lo] && c'[hi..] == c[hi..];
      forall x ensures Class(less, c'[lo..hi], x) == Class(less, c0[lo..hi], x) {
        assert Class(less, c'[lo..hi], x) == Class(less, c[lo..hi], x);
      }
    } else {
      MergeTakesFirst(less, c, lo, i, j, hi);
    }
  }

  // Merges the adjacent sorted ranges that start at a0 and a1b0, the second ending before b1.
  method InplaceMerge(mem: array<Word>, a0: nat, a1b0: nat, b1: nat, less: Less,
                      ghost c0: seq<nat>, ghost lo: nat, ghost mid: nat, ghost hi: nat)
    returns (ghost c: seq<nat>, ghost comparisons: nat)
    requires StrictWeakOrder(less) && Chain(mem[..], c0)
    requires 1 <= lo < mid < hi < |c0| && a0 == c0[lo] && a1b0 == c0[mid] && b1 == c0[hi]
    requires Sorted(less, c0[lo..mid]) && Sorted(less, c0[mid..hi])
    modifies mem
    ensures Chain(mem[..], c) && OnlyLinks(old(mem[..]), mem[..], Elements(c0))
    ensures |c| == |c0| && c[..lo] == c0[..lo] && c[hi..] == c0[hi..]
    ensures Elements(c) == Elements(c0)
    ensures Sorted(less, c[lo..hi]) && StablePermutation(less, c0[lo..hi], c[lo..hi])
    ensures comparisons <= hi - lo
  {
    hide StrictWeakOrder, StablePermutation, Sorted, Chain, OnlyLinks, Elements, PartlyMerged;
    var a, b := a0, a1b0;
    c, comparisons := c0, 0;
    ghost var i, j := lo, mid;
    MergeBegins(less, mem[..], c, lo, mid, hi);
    while a != b && b != b1
      invariant Chain(mem[..], c) && OnlyLinks(old(mem[..]), mem[..], Elements(c0))
      invariant PartlyMerged(less, c0, c, lo, i, j, hi) && comparisons == i - lo
      invariant lo <= i <= j <= hi < |c| == |c0| && a == c[i] && b == c[j] && c[hi] == b1 && 1 <= lo
      decreases hi - i
    {
      DifferentPlaces(mem[..], c, i, j, hi);
      MergedSame(less, c0, c, lo, i, j, hi);
      MergeStep(less, c0, c, lo, i, j, hi);
      comparisons := comparisons + 1;
      if !less(b, a) {
        ChainLink(mem[..], c, i);
        a := Load(mem, a + 2);
        i := i + 1;
      } else {
        ChainLink(mem[..], c, j);
        b := Load(mem, b + 2);
        ghost var m := mem[..];
        MoveBefore(mem, a, b, c, i, j);
        OnlyLinksTransitive(old(mem[..]), m, mem[..], Elements(c0));
        c := Moved(c, i, j);
        i, j := i + 1, j + 1;
      }
    }
    MergeFinished(less, mem[..], c0, c, lo, i, j, hi);
  }

  lemma MergeBegins(less: Less, m: seq<Word>, c: seq<nat>, lo: nat, mid: nat, hi: nat)
    requires lo < mid < hi < |c| && Sorted(less, c[lo..mid]) && Sorted(less, c[mid..hi])
    ensures PartlyMerged(less, c, c, lo, lo, mid, hi) && OnlyLinks(m, m, Elements(c))
  {
    MergeStarts(less, c, lo, mid, hi);
    SelfStable(less, c[lo..hi]);
    NoLinks(m, Elements(c));
  }

  lemma DifferentPlaces(m: seq<Word>, c: seq<nat>, i: nat, j: nat, hi: nat)
    requires Chain(m, c) && i <= j <= hi < |c| && c[i] != c[j] && c[j] != c[hi]
    ensures i < j < hi
  {
  }

  lemma MergedSame(less: Less, c0: seq<nat>, c: seq<nat>, lo: nat, i: nat, j: nat, hi: nat)
    requires PartlyMerged(less, c0, c, lo, i, j, hi)
    ensures Elements(c) == Elements(c0)
  {
  }

  lemma MergeFinished(less: Less, m: seq<Word>, c0: seq<nat>, c: seq<nat>, lo: nat, i: nat, j: nat, hi: nat)
    requires PartlyMerged(less, c0, c, lo, i, j, hi) && hi < |c| && Chain(m, c) && (c[i] == c[j] || c[j] == c[hi])
    ensures |c| == |c0| && c[..lo] == c0[..lo] && c[hi..] == c0[hi..] && Elements(c) == Elements(c0)
    ensures Sorted(less, c[lo..hi]) && StablePermutation(less, c0[lo..hi], c[lo..hi])
  {
    MergeEnds(less, m, c, lo, i, j, hi);
  }

  lemma MergeStarts(less: Less, c: seq<nat>, lo: nat, mid: nat, hi: nat)
    requires lo < mid < hi < |c| && Sorted(less, c[lo..mid]) && Sorted(less, c[mid..hi])
    ensures Merging(less, c, lo, lo, mid, hi)
  {
    forall x, y | lo <= x < y < mid ensures !less(c[y], c[x]) {
      assert !less(c[lo..mid][y - lo], c[lo..mid][x - lo]);
    }
    forall x, y | mid <= x < y < hi ensures !less(c[y], c[x]) {
      assert !less(c[mid..hi][y - mid], c[mid..hi][x - mid]);
    }
  }

  lemma MergeEnds(less: Less, m: seq<Word>, c: seq<nat>, lo: nat, i: nat, j: nat, hi: nat)
    requires Chain(m, c) && Merging(less, c, lo, i, j, hi) && hi < |c|
    requires c[i] == c[j] || c[j] == c[hi]
    ensures Sorted(less, c[lo..hi])
  {
    Distinct(m, c);
  }

  // The chain c is the list at address list: its head, its interior elements, its tail.
  ghost predicate IsList(m: seq<Word>, list: nat, c: seq<nat>) {
    Chain(m, c) && |c| >= 2 && c[0] == list && c[|c| - 1] == list + ELEM_WORDS
  }

  ghost function Interior(c: seq<nat>): seq<nat> requires |c| >= 2 { c[1..|c| - 1] }

  // A pass that has merged k pairs of runs and has c[p..] still to do.
  ghost predicate InPass(less: Less, c0: seq<nat>, c: seq<nat>, p: nat, k: nat) {
    && |c0| == |c| >= 2 && 1 <= p < |c| && c[0] == c0[0] && c[p..] == c0[p..] && Elements(c) == Elements(c0)
    && StablePermutation(less, c0[1..p], c[1..p])
    && Runs(less, c[1..p]) <= k
    && Runs(less, Interior(c0)) == 2 * k + Runs(less, c0[p..|c| - 1])
  }

  lemma PassEnds(less: Less, c0: seq<nat>, c: seq<nat>, p: nat, k: nat)
    requires InPass(less, c0, c, p, k)
    requires p < |c| - 1 ==> Sorted(less, c[p..|c| - 1])
    ensures StablePermutation(less, Interior(c0), Interior(c))
    ensures Runs(less, Interior(c)) <= k + (if p < |c| - 1 then 1 else 0)
    ensures (Runs(less, Interior(c0)) + 1) / 2 == k + (if p < |c| - 1 then 1 else 0)
  {
    hide StablePermutation, Sorted, Runs, Elements;
    var n := |c| - 1;
    var t := c[p..n];
    Cut(c0, c, p, p, n, n + 1);
    TwoParts(c0, 1, p, n);
    TwoParts(c, 1, p, n);
    SelfStable(less, t);
    StableConcat(less, c0[1..p], c[1..p], t, t);
    RunsAtMostSum(less, c[1..p], t);
    if p == n {
      assert t == [];
      NoRuns(less);
    } else {
      SortedHasOneRun(less, t);
      RunsPositive(less, t);
    }
  }

  lemma NoRuns(less: Less)
    ensures Runs(less, []) == 0
  {
  }

  lemma TwoParts(c: seq<nat>, x: nat, y: nat, z: nat)
    requires x <= y <= z <= |c|
    ensures c[x..z] == c[x..y] + c[y..z]
  {
  }

  lemma RunsAtMostSum(less: Less, s: seq<nat>, t: seq<nat>)
    ensures Runs(less, s + t) <= Runs(less, s) + Runs(less, t)
  {
    if s == [] {
      assert s + t == t;
    } else if t == [] {
      assert s + t == s;
    } else {
      RunsConcat(less, s, t);
    }
  }

  lemma StableConcat(less: Less, s: seq<nat>, s': seq<nat>, t: seq<nat>, t': seq<nat>)
    requires StablePermutation(less, s, s') && StablePermutation(less, t, t')
    ensures StablePermutation(less, s + t, s' + t')
  {
    forall x ensures Class(less, s' + t', x) == Class(less, s + t, x) {
      ClassConcat(less, s, t, x);
      ClassConcat(less, s', t', x);
    }
  }

  // Two runs that cannot be extended to the right are two whole runs of what they begin.
  lemma TwoRunsPeel(less: Less, a: seq<nat>, b: seq<nat>, rest: seq<nat>)
    requires a != [] && b != [] && Sorted(less, a) && Sorted(less, b)
    requires less(b[0], a[|a| - 1]) && (rest == [] || less(rest[0], b[|b| - 1]))
    ensures Runs(less, a + b + rest) == 2 + Runs(less, rest)
  {
    SortedHasOneRun(less, a);
    SortedHasOneRun(less, b);
    RunsPositive(less, a);
    RunsPositive(less, b);
    RunsConcat(less, a, b);
    if rest == [] {
      assert a + b + rest == a + b;
    } else {
      RunsConcat(less, a + b, rest);
    }
  }

  lemma PassStep(less: Less, c0: seq<nat>, c: seq<nat>, c': seq<nat>, p: nat, k: nat, mid: nat, hi: nat)
    requires InPass(less, c0, c, p, k) && p < mid < hi < |c|
    requires Sorted(less, c[p..mid]) && less(c[mid], c[mid - 1])
    requires Sorted(less, c[mid..hi]) && (hi == |c| - 1 || less(c[hi], c[hi - 1]))
    requires |c'| == |c| && c'[..p] == c[..p] && c'[hi..] == c[hi..] && Elements(c') == Elements(c)
    requires Sorted(less, c'[p..hi]) && StablePermutation(less, c[p..hi], c'[p..hi])
    ensures InPass(less, c0, c', hi, k + 1)
  {
    hide StablePermutation, Sorted, Runs, Elements;
    var n := |c| - 1;
    Prefix(c, c', p, hi);
    Cut(c0, c, p, hi, n, n + 1);
    Cut(c0, c, p, p, hi, n);
    Cut(c0, c, p, p, n, n + 1);
    SortedHasOneRun(less, c'[p..hi]);
    RunsAtMostSum(less, c'[1..p], c'[p..hi]);
    TwoRunsDone(less, c, p, mid, hi);
    TwoParts(c0, 1, p, hi);
    StableConcat(less, c0[1..p], c[1..p], c[p..hi], c'[p..hi]);
  }

  lemma TwoRunsDone(less: Less, c: seq<nat>, p: nat, mid: nat, hi: nat)
    requires p < mid < hi < |c| && Sorted(less, c[p..mid]) && less(c[mid], c[mid - 1])
    requires Sorted(less, c[mid..hi]) && (hi == |c| - 1 || less(c[hi], c[hi - 1]))
    ensures Runs(less, c[p..|c| - 1]) == 2 + Runs(less, c[hi..|c| - 1])
  {
    hide Sorted, Runs;
    ThreeParts(c, p, mid, hi, |c| - 1);
    TwoRunsPeel(less, c[p..mid], c[mid..hi], c[hi..|c| - 1]);
  }

  lemma ThreeParts(c: seq<nat>, w: nat, x: nat, y: nat, z: nat)
    requires w <= x <= y <= z <= |c|
    ensures c[w..x] + c[x..y] + c[y..z] == c[w..z]
  {
  }

  lemma SameSuffix(c: seq<nat>, c': seq<nat>, k: nat)
    requires |c'| == |c| && k < |c| && c'[k..] == c[k..]
    ensures c'[k] == c[k] && c'[|c| - 1] == c[|c| - 1]
  {
    assert c'[k..][0] == c[k] && c'[k..][|c| - 1 - k] == c[k..][|c| - 1 - k];
  }

  lemma PassStarts(less: Less, c: seq<nat>)
    requires |c| >= 2
    ensures InPass(less, c, c, 1, 0)
  {
    assert c[1..1] == [];
  }

  lemma Cut(c0: seq<nat>, c: seq<nat>, p: nat, x: nat, y: nat, z: nat)
    requires |c0| == |c| && p <= x <= y <= z <= |c| && c[p..] == c0[p..]
    ensures c[x..y] == c0[x..y] && c[y..z] == c0[y..z] && c[y..] == c0[y..]
  {
    assert forall i :: p <= i < |c| ==> c[i] == c[p..][i - p] == c0[p..][i - p] == c0[i];
  }

  lemma Prefix(c: seq<nat>, c': seq<nat>, p: nat, hi: nat)
    requires |c'| == |c| && 1 <= p <= hi <= |c| && c'[..p] == c[..p]
    ensures c'[0] == c[0] && c'[1..p] == c[1..p] && c'[1..hi] == c[1..p] + c'[p..hi]
  {
    assert forall i :: 0 <= i < p ==> c'[i] == c'[..p][i] == c[..p][i] == c[i];
  }

  lemma InPassBounds(less: Less, c0: seq<nat>, c: seq<nat>, p: nat, k: nat)
    requires InPass(less, c0, c, p, k)
    ensures |c0| == |c| >= 2 && 1 <= p < |c| && Elements(c) == Elements(c0)
  {
  }

  lemma OnlyLinksTransitive(m: seq<Word>, m1: seq<Word>, m2: seq<Word>, s: set<nat>)
    requires OnlyLinks(m, m1, s) && OnlyLinks(m1, m2, s)
    ensures OnlyLinks(m, m2, s)
  {
    forall i | 0 <= i < |m| && m2[i] != m[i]
      ensures exists e :: e in s && e <= i < e + ELEM_WORDS
    {
      assert m1[i] != m[i] || m2[i] != m1[i];
    }
  }

  // One pass over the list, merging adjacent runs two by two; count is the number of runs output.
  method SortPass(mem: array<Word>, list: nat, less: Less, ghost c0: seq<nat>)
    returns (count: nat, ghost c: seq<nat>, ghost comparisons: nat)
    requires StrictWeakOrder(less) && IsList(mem[..], list, c0)
    modifies mem
    ensures IsList(mem[..], list, c) && OnlyLinks(old(mem[..]), mem[..], Elements(c0)) && Elements(c) == Elements(c0)
    ensures StablePermutation(less, Interior(c0), Interior(c))
    ensures Runs(less, Interior(c)) <= count == (Runs(less, Interior(c0)) + 1) / 2
    ensures comparisons <= 2 * |Interior(c0)|
  {
    hide StrictWeakOrder, StablePermutation, Sorted, InPass, Chain, OnlyLinks, Elements, Runs;
    count, comparisons := 0, 0;
    c := c0;
    ghost var p, k := 1, 0;
    ChainLink(mem[..], c, 0);
    var tail := list + ELEM_WORDS;
    var a0 := Load(mem, list + 2);
    PassStarts(less, c);
    NoLinks(mem[..], Elements(c0));
    while a0 != tail
      invariant IsList(mem[..], list, c) && OnlyLinks(old(mem[..]), mem[..], Elements(c0))
      invariant InPass(less, c0, c, p, k) && p < |c| && a0 == c[p] && count == k && comparisons <= 2 * (p - 1)
      decreases |c0| - p
    {
      InPassBounds(less, c0, c, p, k);
      count := count + 1;
      var a1b0;
      ghost var mid, n;
      a1b0, mid, n := FindEndOfRun(mem, a0, tail, less, c, p);
      comparisons := comparisons + n;
      if a1b0 == tail {
        SamePlace(mem[..], c, mid, |c| - 1);
        break;
      }
      var b1;
      ghost var hi, c';
      b1, hi, n := FindEndOfRun(mem, a1b0, tail, less, c, mid);
      comparisons := comparisons + n;
      ghost var m := mem[..];
      c', n := InplaceMerge(mem, a0, a1b0, b1, less, c, p, mid, hi);
      comparisons := comparisons + n;
      PairMerged(less, old(mem[..]), m, mem[..], list, c0, c, c', p, k, mid, hi);
      c, p, k := c', hi, k + 1;
      a0 := b1;
    }
    InPassBounds(less, c0, c, p, k);
    if a0 == tail { SamePlace(mem[..], c, p, |c| - 1); }
    PassEnds(less, c0, c, p, k);
  }

  // A pass after two runs more.
  lemma PairMerged(less: Less, m0: seq<Word>, m: seq<Word>, m': seq<Word>, list: nat,
                   c0: seq<nat>, c: seq<nat>, c': seq<nat>, p: nat, k: nat, mid: nat, hi: nat)
    requires IsList(m, list, c) && OnlyLinks(m0, m, Elements(c0)) && InPass(less, c0, c, p, k) && p < mid < hi < |c|
    requires Sorted(less, c[p..mid]) && less(c[mid], c[mid - 1])
    requires Sorted(less, c[mid..hi]) && (hi == |c| - 1 || less(c[hi], c[hi - 1]))
    requires Chain(m', c') && OnlyLinks(m, m', Elements(c)) && Elements(c') == Elements(c)
    requires |c'| == |c| && c'[..p] == c[..p] && c'[hi..] == c[hi..]
    requires Sorted(less, c'[p..hi]) && StablePermutation(less, c[p..hi], c'[p..hi])
    ensures IsList(m', list, c') && OnlyLinks(m0, m', Elements(c0)) && InPass(less, c0, c', hi, k + 1)
    ensures |c'| == |c| && c'[hi] == c[hi]
  {
    hide StablePermutation, Sorted, Runs, Elements, Chain, OnlyLinks, InPass;
    InPassBounds(less, c0, c, p, k);
    OnlyLinksTransitive(m0, m, m', Elements(c0));
    PassStep(less, c0, c, c', p, k, mid, hi);
    Prefix(c, c', p, hi);
    SameSuffix(c, c', hi);
  }

  // The number of passes that suffice for r runs, and its logarithmic bound.
  ghost function Passes(r: nat): nat { if r <= 2 then 1 else 1 + Passes((r + 1) / 2) }

  lemma {:induction false} PassesMonotone(r: nat, r': nat)
    requires r <= r'
    ensures Passes(r) <= Passes(r')
  {
    if r > 2 {
      PassesMonotone((r + 1) / 2, (r' + 1) / 2);
    }
  }

  lemma {:induction false} PassesAreLogarithmic(r: nat)
    ensures Passes(r) == 1 || Pow2(Passes(r) - 1) < r
  {
    if r > 2 {
      PassesAreLogarithmic((r + 1) / 2);
    }
  }

  lemma {:induction false} RunsAtMost(less: Less, s: seq<nat>)
    ensures Runs(less, s) <= |s|
  {
    if |s| > 1 {
      RunsAtMost(less, s[1..]);
    }
  }

  // Sorts the list; passes counts how often it was passed over. For n elements no more than 2 * n comparisons a pass.
  method Sort(mem: array<Word>, list: nat, less: Less, ghost c0: seq<nat>)
    returns (ghost c: seq<nat>, ghost passes: nat, ghost comparisons: nat)
    requires StrictWeakOrder(less) && IsList(mem[..], list, c0)
    modifies mem
    ensures IsList(mem[..], list, c) && OnlyLinks(old(mem[..]), mem[..], Elements(c0)) && Elements(c) == Elements(c0)
    ensures Sorted(less, Interior(c)) && StablePermutation(less, Interior(c0), Interior(c))
    ensures comparisons <= passes * (2 * |Interior(c0)|)
    ensures passes <= Passes(Runs(less, Interior(c0))) <= Passes(|Interior(c0)|)
  {
    hide StablePermutation, Sorted, Chain, OnlyLinks, Elements, Elem;
    RunsAtMost(less, Interior(c0));
    PassesMonotone(Runs(less, Interior(c0)), |Interior(c0)|);
    c, passes, comparisons := c0, 0, 0;
    var outputRunCount := 2;
    SelfStable(less, Interior(c0));
    NoLinks(mem[..], Elements(c0));
    while outputRunCount > 1
      invariant IsList(mem[..], list, c) && OnlyLinks(old(mem[..]), mem[..], Elements(c0))
      invariant Elements(c) == Elements(c0)
      invariant StablePermutation(less, Interior(c0), Interior(c)) && |c| == |c0|
      invariant passes + (if outputRunCount > 1 then Passes(Runs(less, Interior(c))) else 0)
                <= Passes(Runs(less, Interior(c0)))
      invariant outputRunCount <= 1 ==> Runs(less, Interior(c)) <= 1
      invariant comparisons <= passes * (2 * |Interior(c0)|)
      decreases if outputRunCount > 1 then Passes(Runs(less, Interior(c))) else 0
    {
      ghost var m, d, n := mem[..], c, 0;
      outputRunCount, c, n := SortPass(mem, list, less, c);
      OneMore(passes, 2 * |Interior(c0)|);
      comparisons, passes := comparisons + n, passes + 1;
      OnlyLinksTransitive(old(mem[..]), m, mem[..], Elements(c0));
      StableTransitive(less, Interior(c0), Interior(d), Interior(c));
      StableLength(less, Interior(d), Interior(c));
      PassesMonotone(Runs(less, Interior(c)), outputRunCount);
    }
    OneRunIsSorted(less, Interior(c));
  }

  lemma OneMore(k: nat, n: nat)
    ensures (k + 1) * n == k * n + n
  {
  }

  lemma StableLength(less: Less, s: seq<nat>, t: seq<nat>)
    requires StrictWeakOrder(less) && StablePermutation(less, s, t)
    ensures |s| == |t|
  {
    StableIsPermutation(less, s, t);
    assert |s| == |multiset(s)| && |t| == |multiset(t)|;
  }

  lemma SelfStable(less: Less, s: seq<nat>)
    ensures StablePermutation(less, s, s)
  {
  }

  lemma NoLinks(m: seq<Word>, s: set<nat>)
    ensures OnlyLinks(m, m, s)
  {
  }

  lemma StableTransitive(less: Less, s: seq<nat>, t: seq<nat>, u: seq<nat>)
    requires StablePermutation(less, s, t) && StablePermutation(less, t, u)
    ensures StablePermutation(less, s, u)
  {
    forall x ensures Class(less, u, x) == Class(less, s, x) {
      assert Class(less, t, x) == Class(less, s, x);
    }
  }
}
