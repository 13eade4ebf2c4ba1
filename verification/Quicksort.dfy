/** The serial quick sort of threadlab/tests/quicksort.c, and what it is made of. */
module Quicksort {
  import opened IntSorting

  // t has the elements of s, and other than s only from lo to hi (exclusive).
  ghost predicate Rearranged(s: seq<int>, t: seq<int>, lo: int, hi: int) {
    |s| == |t| && Permutes(s, t) && forall i :: 0 <= i < |s| && !(lo <= i < hi) ==> t[i] == s[i]
  }

  ghost predicate Swapped(s: seq<int>, t: seq<int>, i: nat, j: nat) {
    i < |s| && j < |s| && t == s[i := s[j]][j := s[i]]
  }

  method Swap(a: array<int>, i: nat, j: nat)
    requires i < a.Length && j < a.Length
    modifies a
    ensures a[i] == old(a[j]) && a[j] == old(a[i]) && forall k :: 0 <= k < a.Length && k != i && k != j ==>
      a[k] == old(a[k])
    ensures Swapped(old(a[..]), a[..], i, j)
  {
    var tmp := a[i];
    a[i] := a[j];
    a[j] := tmp;
  }

  lemma SwapPermutes(s: seq<int>, i: nat, j: nat)
    requires i < |s| && j < |s|
    ensures Permutes(s, s[i := s[j]][j := s[i]])
  {
  }

  // What is at split is above what is before it from left on, and not above what is after it up to right (inclusive).
  ghost predicate Parted(s: seq<int>, left: int, split: int, right: int) {
    && 0 <= left <= split <= right < |s|
    && (forall i :: left <= i < split ==> s[i] < s[split])
    && (forall i :: split < i <= right ==> s[split] <= s[i])
  }

  // qsort_partition
  method Partition(a: array<int>, left: nat, right: nat) returns (last: nat)
    requires left <= right < a.Length
    modifies a
    ensures Parted(a[..], left, last, right) && Rearranged(old(a[..]), a[..], left, right + 1)
  {
    ghost var s := a[..];
    hide Permutes, Rearranged, Swapped, Parted;
    var middle := left + (right - left) / 2;
    RearrangedAtFirst(s, left, right + 1);
    Swap(a, left, middle);
    StillRearranged(s, s, a[..], left, middle, left, right + 1);
    last := Scan(a, left, right, s);
    ghost var t := a[..];
    Swap(a, left, last);
    StillRearranged(s, t, a[..], left, last, left, right + 1);
    NowParted(t, a[..], left, last, right);
  }

  lemma NowParted(t: seq<int>, u: seq<int>, left: nat, last: nat, right: nat)
    requires left <= last <= right < |t| && Swapped(t, u, left, last)
    requires (forall i :: left < i <= last ==> t[i] < t[left]) && forall i :: last < i <= right ==> t[left] <= t[i]
    ensures Parted(u, left, last, right)
  {
  }

  // The loop of qsort_partition.
  method Scan(a: array<int>, left: nat, right: nat, ghost s: seq<int>) returns (last: nat)
    requires left <= right < a.Length && Rearranged(s, a[..], left, right + 1)
    modifies a
    ensures left <= last <= right && Rearranged(s, a[..], left, right + 1)
    ensures forall i :: left < i <= last ==> a[i] < a[left]
    ensures forall i :: last < i <= right ==> a[left] <= a[i]
  {
    hide Permutes, Rearranged, Swapped;
    last := left;
    var current := left + 1;
    while current <= right
      invariant left <= last < current <= right + 1
      invariant Rearranged(s, a[..], left, right + 1)
      invariant forall i :: left < i <= last ==> a[i] < a[left]
      invariant forall i :: last < i < current ==> a[left] <= a[i]
    {
      if a[current] < a[left] {
        last := last + 1;
        ghost var t := a[..];
        Swap(a, last, current);
        StillRearranged(s, t, a[..], last, current, left, right + 1);
      }
      current := current + 1;
    }
  }

  lemma RearrangedAtFirst(s: seq<int>, lo: int, hi: int)
    ensures Rearranged(s, s, lo, hi)
  {
  }

  lemma StillRearranged(s: seq<int>, t: seq<int>, u: seq<int>, i: nat, j: nat, lo: int, hi: int)
    requires Rearranged(s, t, lo, hi) && lo <= i < hi && lo <= j < hi
    requires Swapped(t, u, i, j)
    ensures Rearranged(s, u, lo, hi)
  {
    SwapPermutes(t, i, j);
  }

  // Both sides of the split in order are the whole in order.
  lemma SidesSorted(s: seq<int>, t: seq<int>, left: nat, split: nat, right: nat)
    requires Rearranged(s, t, left, right + 1) && Parted(t, left, split, right)
    ensures |SortRange(t, left, split)| == |t| && |SortRange(t, split + 1, right + 1)| == |t|
    ensures SortRange(SortRange(t, left, split), split + 1, right + 1) == SortRange(s, left, right + 1)
    ensures SortRange(SortRange(t, split + 1, right + 1), left, split) == SortRange(s, left, right + 1)
  {
    hide Sorting, Sorted, Permutes;
    var x, p, y := t[left..split], t[split], t[split + 1..right + 1];
    SortingAround(x, p, y);
    RangePermutes(s, t, left, right + 1);
    assert t[left..right + 1] == x + [p] + y;
    SortingOfPermuted(s[left..right + 1], t[left..right + 1]);
    TwoSides(t, left, split, right);
    assert s[..left] == t[..left] && s[right + 1..] == t[right + 1..];
  }

  lemma TwoSides(t: seq<int>, left: nat, split: nat, right: nat)
    requires left <= split <= right < |t|
    ensures |SortRange(t, left, split)| == |t| && |SortRange(t, split + 1, right + 1)| == |t|
    ensures
      var r := t[..left] + (Sorting(t[left..split]) + [t[split]] + Sorting(t[split + 1..right + 1])) + t[right + 1..];
      && SortRange(SortRange(t, left, split), split + 1, right + 1) == r
      && SortRange(SortRange(t, split + 1, right + 1), left, split) == r
  {
    hide SortRange;
    var x, y := t[left..split], t[split + 1..right + 1];
    SortingLength(x);
    SortingLength(y);
    Replaced(t, left, split, right, Sorting(x), Sorting(y));
    IsReplaced(t, left, split);
    IsReplaced(t, split + 1, right + 1);
    IsReplaced(SortRange(t, left, split), split + 1, right + 1);
    IsReplaced(SortRange(t, split + 1, right + 1), left, split);
  }

  // s with the elements from lo on replaced by those of w.
  ghost function With(s: seq<int>, lo: nat, w: seq<int>): seq<int>
    requires lo + |w| <= |s|
  {
    s[..lo] + w + s[lo + |w|..]
  }

  lemma SortingLength(x: seq<int>)
    ensures |Sorting(x)| == |x|
  {
    SortingSorts(x);
  }

  lemma IsReplaced(s: seq<int>, lo: nat, hi: nat)
    requires lo <= hi <= |s|
    ensures |Sorting(s[lo..hi])| == hi - lo && SortRange(s, lo, hi) == With(s, lo, Sorting(s[lo..hi]))
  {
    SortingLength(s[lo..hi]);
  }

  lemma Replaced(t: seq<int>, left: nat, split: nat, right: nat, u: seq<int>, v: seq<int>)
    requires left <= split <= right < |t| && |u| == split - left && |v| == right - split
    ensures |With(t, left, u)| == |t| == |With(t, split + 1, v)|
    ensures With(t, left, u)[split + 1..right + 1] == t[split + 1..right + 1]
    ensures With(t, split + 1, v)[left..split] == t[left..split]
    ensures
      var r := t[..left] + (u + [t[split]] + v) + t[right + 1..];
      With(With(t, left, u), split + 1, v) == r && With(With(t, split + 1, v), left, u) == r
  {
  }

  lemma RangePermutes(s: seq<int>, t: seq<int>, lo: nat, hi: nat)
    requires Rearranged(s, t, lo, hi) && lo <= hi <= |s|
    ensures Permutes(s[lo..hi], t[lo..hi])
  {
    assert s[..lo] == t[..lo] && s[hi..] == t[hi..];
    assert s == s[..lo] + s[lo..hi] + s[hi..] && t == s[..lo] + t[lo..hi] + s[hi..];
    MiddlePermutes(s[..lo], s[lo..hi], t[lo..hi], s[hi..]);
  }

  lemma MiddlePermutes(p: seq<int>, x: seq<int>, y: seq<int>, q: seq<int>)
    requires Permutes(p + x + q, p + y + q)
    ensures Permutes(x, y)
  {
    forall e ensures multiset(x)[e] == multiset(y)[e] {
      assert multiset(p + x + q)[e] == multiset(p)[e] + multiset(x)[e] + multiset(q)[e];
      assert multiset(p + y + q)[e] == multiset(p)[e] + multiset(y)[e] + multiset(q)[e];
    }
  }

  lemma SortingAround(x: seq<int>, p: int, y: seq<int>)
    requires (forall i :: 0 <= i < |x| ==> x[i] < p) && (forall i :: 0 <= i < |y| ==> p <= y[i])
    ensures Sorting(x) + [p] + Sorting(y) == Sorting(x + [p] + y)
  {
    SortingSorts(x);
    SortingSorts(y);
    var u, v := Sorting(x), Sorting(y);
    SameElements(x, u, p);
    SameElements(y, v, p);
    SortedInOrder(u, [p]);
    SortedInOrder(u + [p], v);
    hide Sorting, Sorted;
    SortingIs(x + [p] + y, u + [p] + v);
  }

  lemma SameElements(x: seq<int>, u: seq<int>, p: int)
    requires Permutes(x, u)
    ensures (forall i :: 0 <= i < |x| ==> x[i] < p) ==> forall i :: 0 <= i < |u| ==> u[i] < p
    ensures (forall i :: 0 <= i < |x| ==> p <= x[i]) ==> forall i :: 0 <= i < |u| ==> p <= u[i]
  {
    forall i | 0 <= i < |u| ensures u[i] in x {
      assert u[i] in multiset(u);
      assert u[i] in multiset(x);
    }
  }

  // qsort_internal_serial
  method QsortSerial(a: array<int>, left: nat, right: int)
    requires left <= right + 1 <= a.Length
    modifies a
    ensures a[..] == SortRange(old(a[..]), left, right + 1)
    decreases right + 1 - left
  {
    ghost var s := a[..];
    if left >= right {
      ShortRange(s, left, right + 1);
      return;
    }
    hide SortRange, Parted, Rearranged;
    var split := Partition(a, left, right);
    PartedRange(a[..], left, split, right);
    SidesSorted(s, a[..], left, split, right);
    QsortSerial(a, left, split as int - 1);
    QsortSerial(a, split + 1, right);
  }

  lemma PartedRange(s: seq<int>, left: int, split: int, right: int)
    requires Parted(s, left, split, right)
    ensures left <= split <= right
  {
  }
}
