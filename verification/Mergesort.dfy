/** The serial merge sort of threadlab/tests/mergesort.c, and what it is made of. */
module Mergesort {
  import opened IntSorting

  // t in place of the last element of s[lo..i + 1], which is moved down to j.
  ghost function MovedDown(s: seq<int>, i: nat, j: nat): seq<int>
    requires j <= i < |s|
  {
    s[..j] + [s[i]] + s[j..i] + s[i + 1..]
  }

  // The body of the outer loop of insertionsort.
  method InsertOne(a: array<int>, lo: nat, i: nat)
    requires lo < i < a.Length && Sorted(a[lo..i])
    modifies a
    ensures a[..] == SortRange(old(a[..]), lo, i + 1)
  {
    ghost var s := a[..];
    var j := i;
    var t := a[j];
    while j > lo && t < a[j - 1]
      invariant lo <= j <= i
      invariant forall k :: 0 <= k < a.Length && (k <= j || k > i) && k != i ==> a[k] == s[k]
      invariant forall k :: j < k <= i ==> a[k] == s[k - 1]
      invariant forall k :: j <= k < i ==> t < s[k]
    {
      a[j] := a[j - 1];
      j := j - 1;
    }
    a[j] := t;
    assert a[..] == MovedDown(s, i, j);
    InsertedInOrder(s, lo, i, j);
  }

  lemma InsertedInOrder(s: seq<int>, lo: nat, i: nat, j: nat)
    requires lo <= j <= i < |s| && Sorted(s[lo..i])
    requires forall k :: j <= k < i ==> s[i] < s[k]
    requires j > lo ==> s[j - 1] <= s[i]
    ensures MovedDown(s, i, j) == SortRange(s, lo, i + 1)
  {
    hide Sorting, Sorted, MovedDown, SortRange;
    var b, t, e := s[lo..j], s[i], s[j..i];
    assert s[lo..i] == b + e && s[lo..i + 1] == b + e + [t];
    assert j > lo ==> b[|b| - 1] == s[j - 1];
    SortsInto(b, t, e);
    MovedParts(s, lo, i, j);
  }

  lemma MovedParts(s: seq<int>, lo: nat, i: nat, j: nat)
    requires lo <= j <= i < |s|
    ensures MovedDown(s, i, j) == s[..lo] + (s[lo..j] + [s[i]] + s[j..i]) + s[i + 1..]
    ensures SortRange(s, lo, i + 1) == s[..lo] + Sorting(s[lo..j] + s[j..i] + [s[i]]) + s[i + 1..]
  {
    hide Sorting;
    assert s[lo..i + 1] == s[lo..j] + s[j..i] + [s[i]];
    assert s[..j] == s[..lo] + s[lo..j];
    Shuffle(s[..lo], s[lo..j], [s[i]], s[j..i], s[i + 1..]);
  }

  lemma Shuffle(p: seq<int>, b: seq<int>, t: seq<int>, e: seq<int>, q: seq<int>)
    ensures p + b + t + e + q == p + (b + t + e) + q
  {
  }

  lemma SortsInto(b: seq<int>, t: int, e: seq<int>)
    requires Sorted(b + e) && (b != [] ==> b[|b| - 1] <= t) && forall k :: 0 <= k < |e| ==> t < e[k]
    ensures b + [t] + e == Sorting(b + e + [t])
  {
    SortedParts(b, e);
    SortedWith(b, t, e);
    hide Sorting, Sorted;
    assert multiset(b + [t] + e) == multiset(b + e + [t]);
    SortingIs(b + e + [t], b + [t] + e);
  }

  lemma SortedParts(b: seq<int>, e: seq<int>)
    requires Sorted(b + e)
    ensures Sorted(b) && Sorted(e)
  {
    var s := b + e;
    assert forall k :: 0 <= k < |b| ==> b[k] == s[k];
    assert forall k :: 0 <= k < |e| ==> e[k] == s[|b| + k];
  }

  lemma SortedWith(b: seq<int>, t: int, e: seq<int>)
    requires Sorted(b) && Sorted(e) && (b != [] ==> b[|b| - 1] <= t) && (e != [] ==> t <= e[0])
    ensures Sorted(b + [t] + e)
  {
    SortedInOrder(b, [t]);
    SortedInOrder(b + [t], e);
  }

  // insertionsort, of the elements from lo to hi (inclusive).
  method InsertionSort(a: array<int>, lo: nat, hi: int)
    requires lo <= hi + 1 <= a.Length
    modifies a
    ensures a[..] == SortRange(old(a[..]), lo, hi + 1)
  {
    hide Sorting, SortRange, Sorted;
    ghost var s := a[..];
    var i := lo + 1;
    ShortRange(s, lo, hi + 1);
    while i <= hi
      invariant lo < i && (i <= hi + 1 || i == lo + 1)
      invariant i <= hi + 1 ==> a[..] == SortRange(s, lo, i)
      invariant lo == hi + 1 ==> a[..] == s
    {
      SortRangeParts(s, lo, i);
      SortingSorts(s[lo..i]);
      SortRangeGrows(s, lo, i);
      ghost var s1 := a[..];
      assert a[lo..i] == s1[lo..i];
      InsertOne(a, lo, i);
      i := i + 1;
    }
  }

  lemma SortRangeGrows(s: seq<int>, lo: nat, i: nat)
    requires lo < i < |s|
    ensures |SortRange(s, lo, i)| == |s| && SortRange(SortRange(s, lo, i), lo, i + 1) == SortRange(s, lo, i + 1)
  {
    hide Sorting, Sorted;
    SortRangeParts(s, lo, i);
    SortingSorts(s[lo..i]);
    var s1 := SortRange(s, lo, i);
    var x, t := s[lo..i], s[i];
    assert s1[lo..i + 1] == Sorting(x) + [t] && s[lo..i + 1] == x + [t];
    SortingOfMore(x, t);
    assert s1[..lo] == s[..lo] && s1[i + 1..] == s[i + 1..];
  }

  lemma SortingOfMore(x: seq<int>, t: int)
    ensures Sorting(Sorting(x) + [t]) == Sorting(x + [t])
  {
    SortingSorts(x);
    SortingOfPermuted(Sorting(x) + [t], x + [t]);
  }

  // s with its two parts, from left to m and from m + 1 to right (inclusive), merged.
  ghost function MergedAt(s: seq<int>, left: nat, m: nat, right: nat): seq<int>
    requires left <= m < right < |s|
  {
    s[..left] + Merge(s[left..m + 1], s[m + 1..right + 1]) + s[right + 1..]
  }

  // Only the elements of t from lo to hi (exclusive) differ from those of s.
  ghost predicate SameOutside(s: seq<int>, t: seq<int>, lo: int, hi: int) {
    |s| == |t| && forall i :: 0 <= i < |s| && !(lo <= i < hi) ==> t[i] == s[i]
  }

  // memcpy of n elements.
  method Copy(dst: array<int>, d: nat, src: array<int>, p: nat, n: nat)
    requires dst != src && d + n <= dst.Length && p + n <= src.Length
    modifies dst
    ensures forall w :: d <= w < d + n ==> dst[w] == src[w - d + p]
    ensures SameOutside(old(dst[..]), dst[..], d, d + n)
  {
    forall i | 0 <= i < n {
      dst[d + i] := src[p + i];
    }
  }

  // merge: of two parts in order, by way of the elements of b from bstart on.
  method MergeParts(a: array<int>, b: array<int>, bstart: nat, left: nat, m: nat, right: nat)
    requires a != b && left <= m < right < a.Length && bstart + (m - left + 1) <= b.Length
    requires Sorted(a[left..m + 1]) && Sorted(a[m + 1..right + 1])
    modifies a, b
    ensures a[..] == MergedAt(old(a[..]), left, m, right)
    ensures SameOutside(old(b[..]), b[..], bstart, bstart + (m - left + 1))
  {
    ghost var s := a[..];
    ghost var x, y := s[left..m + 1], s[m + 1..right + 1];
    assert a[left..m + 1] == x && a[m + 1..right + 1] == y;
    if a[m] <= a[m + 1] {
      InOrderAlready(s, left, m, right);
      return;
    }
    Copy(b, bstart, a, left, m - left + 1);
    MergeLoop(a, b, bstart, left, m, right, x, y);
    assert a[..] == s[..left] + Merge(x, y) + s[right + 1..];
  }

  lemma InOrderAlready(s: seq<int>, left: nat, m: nat, right: nat)
    requires left <= m < right < |s| && Sorted(s[left..m + 1]) && Sorted(s[m + 1..right + 1]) && s[m] <= s[m + 1]
    ensures s == MergedAt(s, left, m, right)
  {
    var x, y := s[left..m + 1], s[m + 1..right + 1];
    assert x[|x| - 1] == s[m] && y[0] == s[m + 1];
    MergeInOrder(x, y);
    assert s == s[..left] + (x + y) + s[right + 1..];
  }

  // The words of a from lo on are those of w.
  ghost predicate HeldAt(a: seq<int>, lo: nat, w: seq<int>) {
    lo + |w| <= |a| && forall i :: lo <= i < lo + |w| ==> a[i] == w[i - lo]
  }

  method MergeLoop(a: array<int>, b: array<int>, bstart: nat, left: nat, m: nat, right: nat, ghost x: seq<int>,
                   ghost y: seq<int>)
    requires a != b && left <= m < right < a.Length && |x| == m - left + 1 && |y| == right - m
    requires HeldAt(b[..], bstart, x) && HeldAt(a[..], m + 1, y)
    modifies a
    ensures SameOutside(old(a[..]), a[..], left, right + 1)
    ensures |Merge(x, y)| == right + 1 - left && HeldAt(a[..], left, Merge(x, y))
  {
    ghost var s := a[..];
    var i, j, k;
    ghost var p, q, out;
    i, j, k, p, q, out := MergeScan(a, b, bstart, left, m, right, x, y);
    ghost var s1 := a[..];
    Copy(a, k, b, i, j - k);
    MergeLength(x, y);
    MergeRest(x, y, p, q, out);
    StillHeld(s1, a[..], left, out, k, j);
    if p == |x| {
      StillHeld(s1, a[..], j, y[q..], k, j);
      HeldBoth(a[..], left, out, y[q..]);
    } else {
      assert HeldAt(a[..], k, x[p..]);
      HeldBoth(a[..], left, out, x[p..]);
    }
  }

  lemma StillHeld(s: seq<int>, t: seq<int>, lo: nat, w: seq<int>, k: nat, j: nat)
    requires HeldAt(s, lo, w) && SameOutside(s, t, k, j) && (lo + |w| <= k || j <= lo)
    ensures HeldAt(t, lo, w)
  {
  }

  lemma HeldBoth(s: seq<int>, lo: nat, u: seq<int>, v: seq<int>)
    requires HeldAt(s, lo, u) && HeldAt(s, lo + |u|, v)
    ensures HeldAt(s, lo, u + v)
  {
  }

  lemma HeldRest(s: seq<int>, lo: nat, w: seq<int>)
    requires HeldAt(s, lo, w) && w != []
    ensures s[lo] == w[0] && HeldAt(s, lo + 1, w[1..])
  {
  }

  lemma SameAtFirst(s: seq<int>, lo: int, hi: int)
    ensures SameOutside(s, s, lo, hi)
  {
  }

  // The next element goes to position k.
  lemma PutNext(s: seq<int>, t: seq<int>, left: nat, out: seq<int>, k: nat, v: int, j: nat, rest: seq<int>,
                s0: seq<int>, right: nat)
    requires HeldAt(s, left, out) && k == left + |out| && k < |s| && t == s[k := v] && HeldAt(s, j, rest) && k < j
    requires SameOutside(s0, s, left, right + 1) && k <= right
    ensures HeldAt(t, left, out + [v]) && HeldAt(t, j, rest) && SameOutside(s0, t, left, right + 1)
  {
  }

  method MergeScan(a: array<int>, b: array<int>, bstart: nat, left: nat, m: nat, right: nat, ghost x: seq<int>,
                   ghost y: seq<int>)
    returns (i: nat, j: nat, k: nat, ghost p: nat, ghost q: nat, ghost out: seq<int>)
    requires a != b && left <= m < right < a.Length && |x| == m - left + 1 && |y| == right - m
    requires HeldAt(b[..], bstart, x) && HeldAt(a[..], m + 1, y)
    modifies a
    ensures p <= |x| && q <= |y| && (p == |x| || q == |y|) && i == bstart + p && j == m + 1 + q && k == left + p + q
    ensures |out| == p + q && out + Merge(x[p..], y[q..]) == Merge(x, y)
    ensures HeldAt(a[..], left, out) && HeldAt(a[..], j, y[q..]) && SameOutside(old(a[..]), a[..], left, right + 1)
  {
    hide Merge, SameOutside;
    ghost var s0 := a[..];
    i, j, k := bstart, m + 1, left;
    p, q, out := 0, 0, [];
    SameAtFirst(s0, left, right + 1);
    assert x[0..] == x && y[0..] == y;
    while k < j && j <= right
      invariant 0 <= p <= |x| && 0 <= q <= |y| && i == bstart + p && j == m + 1 + q && k == left + p + q
      invariant |out| == p + q && out + Merge(x[p..], y[q..]) == Merge(x, y)
      invariant HeldAt(a[..], left, out) && HeldAt(a[..], j, y[q..]) && SameOutside(s0, a[..], left, right + 1)
      invariant HeldAt(b[..], bstart, x)
      decreases |x| - p + |y| - q
    {
      MergeStep(x, y, p, q, out);
      ghost var s := a[..];
      HeldRest(s, j, y[q..]);
      assert b[i] == x[p] && y[q..][1..] == y[q + 1..];
      if b[i] < a[j] {
        a[k] := b[i];
        PutNext(s, a[..], left, out, k, x[p], j, y[q..], s0, right);
        out := out + [x[p]];
        k, i := k + 1, i + 1;
        p := p + 1;
      } else {
        a[k] := a[j];
        j := j + 1;
        PutNext(s, a[..], left, out, k, y[q], j, y[q + 1..], s0, right);
        out := out + [y[q]];
        k := k + 1;
        q := q + 1;
      }
    }
  }

  lemma {:induction false} MergeLength(x: seq<int>, y: seq<int>)
    ensures |Merge(x, y)| == |x| + |y|
  {
    if x != [] && y != [] {
      if x[0] < y[0] {
        MergeLength(x[1..], y);
      } else {
        MergeLength(x, y[1..]);
      }
    }
  }

  lemma MergeStep(x: seq<int>, y: seq<int>, p: nat, q: nat, out: seq<int>)
    requires p < |x| && q < |y| && out + Merge(x[p..], y[q..]) == Merge(x, y)
    ensures x[p] < y[q] ==> (out + [x[p]]) + Merge(x[p + 1..], y[q..]) == Merge(x, y)
    ensures x[p] >= y[q] ==> (out + [y[q]]) + Merge(x[p..], y[q + 1..]) == Merge(x, y)
  {
    assert x[p..][1..] == x[p + 1..] && y[q..][1..] == y[q + 1..];
  }

  lemma MergeRest(x: seq<int>, y: seq<int>, p: nat, q: nat, out: seq<int>)
    requires p <= |x| && q <= |y| && (p == |x| || q == |y|) && out + Merge(x[p..], y[q..]) == Merge(x, y)
    ensures p == |x| ==> Merge(x, y) == out + y[q..]
    ensures p < |x| ==> Merge(x, y) == out + x[p..]
  {
  }

  // Two halves in order, merged, are the whole in order.
  lemma HalvesSorted(s: seq<int>, left: nat, m: nat, right: nat)
    requires left <= m < right < |s|
    ensures |SortRange(s, left, m + 1)| == |s| && |SortRange(s, m + 1, right + 1)| == |s|
    ensures SortRange(SortRange(s, left, m + 1), m + 1, right + 1) ==
      SortRange(SortRange(s, m + 1, right + 1), left, m + 1)
    ensures
      var t := SortRange(SortRange(s, left, m + 1), m + 1, right + 1);
      && |t| == |s| && Sorted(t[left..m + 1]) && Sorted(t[m + 1..right + 1])
      && MergedAt(t, left, m, right) == SortRange(s, left, right + 1)
  {
    hide Sorting, Sorted, Merge;
    SortRangesCommute(s, left, m + 1, right + 1);
    var x, y := s[left..m + 1], s[m + 1..right + 1];
    SortingSorts(x);
    SortingSorts(y);
    var t := s[..left] + Sorting(x) + Sorting(y) + s[right + 1..];
    assert t[left..m + 1] == Sorting(x) && t[m + 1..right + 1] == Sorting(y) && t[..left] == s[..left]
        && t[right + 1..] == s[right + 1..];
    MergeOfSortings(x, y);
    assert x + y == s[left..right + 1];
  }

  lemma OutsideOfAll(s: seq<int>, t: seq<int>, u: seq<int>, v: seq<int>, base: int, i: int, j: int, n: int)
    requires SameOutside(s, t, base, base + i) && SameOutside(t, u, base, base + j) && SameOutside(u, v, base, base + i)
    requires i <= n && j <= n
    ensures SameOutside(s, v, base, base + n)
  {
  }

  // mergesort_internal; base is where tmp points to.
  method MergesortInternal(a: array<int>, tmp: array<int>, base: nat, left: nat, right: int, insertionThreshold: int)
    requires a != tmp && left <= right + 1 <= a.Length && insertionThreshold >= 1
    requires base + (right + 1 - left) <= tmp.Length
    modifies a, tmp
    ensures a[..] == SortRange(old(a[..]), left, right + 1)
    ensures SameOutside(old(tmp[..]), tmp[..], base, base + (right + 1 - left))
    decreases right + 1 - left
  {
    hide SortRange, MergedAt, Sorted, SameOutside;
    if right - left < insertionThreshold {
      SameAtFirst(tmp[..], base, base + (right + 1 - left));
      InsertionSort(a, left, right);
    } else {
      ghost var s, s' := a[..], tmp[..];
      var m := (left + right) / 2;
      HalvesSorted(s, left, m, right);
      MergesortInternal(a, tmp, base, left, m, insertionThreshold);
      ghost var t1 := tmp[..];
      MergesortInternal(a, tmp, base, m + 1, right, insertionThreshold);
      ghost var t, t2 := a[..], tmp[..];
      assert a[left..m + 1] == t[left..m + 1] && a[m + 1..right + 1] == t[m + 1..right + 1];
      MergeParts(a, tmp, base, left, m, right);
      OutsideOfAll(s', t1, t2, tmp[..], base, m + 1 - left, right - m, right + 1 - left);
    }
  }
}
