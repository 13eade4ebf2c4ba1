/** Sorted sequences of ints: the one that the sorts of threadlab/tests end with, and what gives it. */
module IntSorting {
  ghost predicate Sorted(s: seq<int>) { forall i, j :: 0 <= i < j < |s| ==> s[i] <= s[j] }

  ghost predicate Permutes(s: seq<int>, t: seq<int>) { multiset(s) == multiset(t) }

  ghost function Insert(x: int, s: seq<int>): seq<int> {
    if s == [] then [x] else if x <= s[0] then [x] + s else [s[0]] + Insert(x, s[1..])
  }

  // The elements of s in order.
  ghost function Sorting(s: seq<int>): seq<int> {
    if s == [] then [] else Insert(s[0], Sorting(s[1..]))
  }

  lemma {:induction false} InsertSorts(x: int, s: seq<int>)
    requires Sorted(s)
    ensures Sorted(Insert(x, s)) && multiset(Insert(x, s)) == multiset{x} + multiset(s)
  {
    if s == [] {
    } else if x <= s[0] {
    } else {
      assert s == [s[0]] + s[1..];
      InsertSorts(x, s[1..]);
      InsertAbove(x, s[1..], s[0]);
    }
  }

  lemma {:induction false} InsertAbove(x: int, s: seq<int>, y: int)
    requires y < x && forall i :: 0 <= i < |s| ==> y <= s[i]
    ensures forall i :: 0 <= i < |Insert(x, s)| ==> y <= Insert(x, s)[i]
  {
    if s != [] && x > s[0] {
      InsertAbove(x, s[1..], y);
    }
  }

  lemma {:induction false} SortingSorts(s: seq<int>)
    ensures Sorted(Sorting(s)) && Permutes(s, Sorting(s)) && |Sorting(s)| == |s|
  {
    if s != [] {
      assert s == [s[0]] + s[1..];
      SortingSorts(s[1..]);
      InsertSorts(s[0], Sorting(s[1..]));
    }
    assert |multiset(s)| == |s| && |multiset(Sorting(s))| == |Sorting(s)|;
  }

  // There is only one sorted sequence with the given elements.
  lemma {:induction false} SortedIsUnique(s: seq<int>, t: seq<int>)
    requires Sorted(s) && Sorted(t) && Permutes(s, t)
    ensures s == t
  {
    assert |multiset(s)| == |s| && |multiset(t)| == |t|;
    if s != [] {
      SameFirst(s, t);
      SameFirst(t, s);
      RestPermutes(s, t);
      SortedIsUnique(s[1..], t[1..]);
      assert s == [s[0]] + s[1..] && t == [t[0]] + t[1..];
    }
  }

  lemma SameFirst(s: seq<int>, t: seq<int>)
    requires Sorted(t) && Permutes(s, t) && s != [] && t != []
    ensures t[0] <= s[0]
  {
    assert s[0] in multiset(s);
    assert s[0] in t;
  }

  lemma RestPermutes(s: seq<int>, t: seq<int>)
    requires Permutes(s, t) && s != [] && t != [] && s[0] == t[0]
    ensures Permutes(s[1..], t[1..])
  {
    assert s == [s[0]] + s[1..] && t == [t[0]] + t[1..];
    assert multiset(s[1..]) == multiset(s) - multiset{s[0]} && multiset(t[1..]) == multiset(t) - multiset{t[0]};
  }

  lemma SortingIs(s: seq<int>, t: seq<int>)
    requires Sorted(t) && Permutes(s, t)
    ensures t == Sorting(s)
  {
    SortingSorts(s);
    SortedIsUnique(t, Sorting(s));
  }

  lemma SortingOfPermuted(s: seq<int>, t: seq<int>)
    requires Permutes(s, t)
    ensures Sorting(s) == Sorting(t)
  {
    SortingSorts(s);
    SortingSorts(t);
    SortedIsUnique(Sorting(s), Sorting(t));
  }

  // s with the elements from lo to hi (exclusive) in order.
  ghost function SortRange(s: seq<int>, lo: nat, hi: nat): seq<int>
    requires lo <= hi <= |s|
  {
    s[..lo] + Sorting(s[lo..hi]) + s[hi..]
  }

  lemma SortRangeParts(s: seq<int>, lo: nat, hi: nat)
    requires lo <= hi <= |s|
    ensures |SortRange(s, lo, hi)| == |s|
    ensures SortRange(s, lo, hi)[lo..hi] == Sorting(s[lo..hi])
    ensures SortRange(s, lo, hi)[..lo] == s[..lo] && SortRange(s, lo, hi)[hi..] == s[hi..]
    ensures forall i :: 0 <= i < |s| && !(lo <= i < hi) ==> SortRange(s, lo, hi)[i] == s[i]
  {
    SortingSorts(s[lo..hi]);
  }

  // Ranges of one element and of none are in order.
  lemma ShortRange(s: seq<int>, lo: nat, hi: nat)
    requires lo <= hi <= |s|
    ensures lo == hi ==> SortRange(s, lo, hi) == s
    ensures lo < hi ==> SortRange(s, lo, lo + 1) == s
  {
    if lo < hi {
      assert s[lo..lo + 1] == [s[lo]] && [s[lo]][1..] == [];
      assert Sorting([s[lo]]) == [s[lo]];
    }
  }

  // Two ranges side by side can be sorted in any order.
  lemma SortRangesCommute(s: seq<int>, lo: nat, m: nat, hi: nat)
    requires lo <= m <= hi <= |s|
    ensures |SortRange(s, lo, m)| == |s| && |SortRange(s, m, hi)| == |s|
    ensures SortRange(SortRange(s, lo, m), m, hi) == SortRange(SortRange(s, m, hi), lo, m)
         == s[..lo] + Sorting(s[lo..m]) + Sorting(s[m..hi]) + s[hi..]
  {
    SortRangeParts(s, lo, m);
    SortRangeParts(s, m, hi);
    var a, b := SortRange(s, lo, m), SortRange(s, m, hi);
    assert a[m..hi] == s[m..hi] && b[lo..m] == s[lo..m];
    assert a[..m] == s[..lo] + Sorting(s[lo..m]) && a[hi..] == s[hi..];
    assert b[m..] == Sorting(s[m..hi]) + s[hi..] && b[..lo] == s[..lo];
    SortRangeParts(a, m, hi);
    SortRangeParts(b, lo, m);
  }

  // ----- merging -----

  ghost function Merge(x: seq<int>, y: seq<int>): seq<int> {
    if x == [] then y
    else if y == [] then x
    else if x[0] < y[0] then [x[0]] + Merge(x[1..], y)
    else [y[0]] + Merge(x, y[1..])
  }

  ghost predicate AtLeast(s: seq<int>, b: int) { forall i :: 0 <= i < |s| ==> b <= s[i] }

  lemma {:induction false} MergeAtLeast(x: seq<int>, y: seq<int>, b: int)
    requires AtLeast(x, b) && AtLeast(y, b)
    ensures AtLeast(Merge(x, y), b)
  {
    if x != [] && y != [] {
      if x[0] < y[0] {
        MergeAtLeast(x[1..], y, b);
      } else {
        MergeAtLeast(x, y[1..], b);
      }
    }
  }

  lemma Prepended(h: int, s: seq<int>)
    requires Sorted(s) && AtLeast(s, h)
    ensures Sorted([h] + s)
  {
  }

  lemma RestSorted(s: seq<int>)
    requires Sorted(s) && s != []
    ensures Sorted(s[1..]) && AtLeast(s[1..], s[0]) && AtLeast(s, s[0])
    ensures multiset(s) == multiset{s[0]} + multiset(s[1..])
  {
    assert s == [s[0]] + s[1..];
  }

  lemma {:induction false} MergeSorts(x: seq<int>, y: seq<int>)
    requires Sorted(x) && Sorted(y)
    ensures Sorted(Merge(x, y)) && multiset(Merge(x, y)) == multiset(x) + multiset(y)
  {
    if x != [] && y != [] {
      hide Sorted, AtLeast;
      RestSorted(x);
      RestSorted(y);
      Lower(x, y);
      if x[0] < y[0] {
        MergeSorts(x[1..], y);
        MergeAtLeast(x[1..], y, x[0]);
        Prepended(x[0], Merge(x[1..], y));
      } else {
        MergeSorts(x, y[1..]);
        MergeAtLeast(x, y[1..], y[0]);
        Prepended(y[0], Merge(x, y[1..]));
      }
    }
  }

  lemma Lower(x: seq<int>, y: seq<int>)
    requires x != [] && y != [] && AtLeast(x, x[0]) && AtLeast(y, y[0])
    ensures x[0] < y[0] ==> AtLeast(y, x[0])
    ensures x[0] >= y[0] ==> AtLeast(x, y[0])
  {
  }

  lemma MergeOfSortings(x: seq<int>, y: seq<int>)
    ensures Merge(Sorting(x), Sorting(y)) == Sorting(x + y)
  {
    SortingSorts(x);
    SortingSorts(y);
    MergeSorts(Sorting(x), Sorting(y));
    assert multiset(x + y) == multiset(x) + multiset(y);
    SortingIs(x + y, Merge(Sorting(x), Sorting(y)));
  }

  // Sequences that are in order one after the other are merged already.
  lemma MergeInOrder(x: seq<int>, y: seq<int>)
    requires Sorted(x) && Sorted(y) && x != [] && y != [] && x[|x| - 1] <= y[0]
    ensures Merge(x, y) == x + y
  {
    MergeSorts(x, y);
    SortedInOrder(x, y);
    hide Sorted, Merge;
    assert multiset(x + y) == multiset(x) + multiset(y);
    SortedIsUnique(Merge(x, y), x + y);
  }

  lemma SortedInOrder(x: seq<int>, y: seq<int>)
    requires Sorted(x) && Sorted(y) && (x != [] && y != [] ==> x[|x| - 1] <= y[0])
    ensures Sorted(x + y)
  {
    var s := x + y;
    forall i, j | 0 <= i < j < |s| ensures s[i] <= s[j] {
      if i < |x| <= j {
        assert x[i] <= x[|x| - 1] <= y[0] <= y[j - |x|];
      }
    }
  }
}
