/** The parallel merge sort of threadlab/tests/mergesort.c as forked tasks, in any interleaving of their accesses. */
module MergesortTasks {
  import opened IntSorting
  import opened Forks
  import opened Mergesort

  // ----- the programs; k is what follows -----

  // The inner loop of insertionsort, with t in register T.
  function InsertDown(lo: nat, j: nat, k: Prog): Prog
    decreases j
  {
    if j <= lo then Store(A(j), T, k)
    else Load(X, A(j - 1), Less(Load(X, A(j - 1), Store(A(j), X, InsertDown(lo, j - 1, k))), Store(A(j), T, k)))
  }

  function InsertFrom(lo: nat, i: nat, hi: int, k: Prog): Prog
    decreases hi + 1 - i
  {
    if i > hi then k else Load(T, A(i), InsertDown(lo, i, InsertFrom(lo, i + 1, hi, k)))
  }

  // memcpy of n elements, to the buffer and back
  function CopyOut(d: nat, p: nat, n: nat, k: Prog): Prog
    decreases n
  {
    if n == 0 then k else Load(X, A(p), Store(B(d), X, CopyOut(d + 1, p + 1, n - 1, k)))
  }

  function CopyBack(d: nat, p: nat, n: nat, k: Prog): Prog
    decreases n
  {
    if n == 0 then k else Load(X, B(p), Store(A(d), X, CopyBack(d + 1, p + 1, n - 1, k)))
  }

  // The loop of merge, and the memcpy after it; c is the k of the code.
  function MergeFrom(i: nat, j: nat, c: nat, right: nat, k: Prog): Prog
    requires c <= j
    decreases right + 1 - c
  {
    if c < j <= right then
      Load(T, B(i), Load(X, A(j), Less(
        Load(X, B(i), Store(A(c), X, MergeFrom(i + 1, j, c + 1, right, k))),
        Load(X, A(j), Store(A(c), X, MergeFrom(i, j + 1, c + 1, right, k))))))
    else CopyBack(c, i, j - c, k)
  }

  function MergeTask(bstart: nat, left: nat, m: nat, right: nat, k: Prog): Prog
    requires left <= m
  {
    Load(X, A(m), Load(T, A(m + 1), Less(
      CopyOut(bstart, left, m - left + 1, MergeFrom(bstart, m + 1, left, right, k)),
      k)))
  }

  // mergesort_internal; base is where tmp points to
  function SerialTask(base: nat, left: nat, right: int, threshold: int, k: Prog): Prog
    requires left <= right + 1 && threshold >= 1
    decreases right + 1 - left
  {
    if right - left < threshold then InsertFrom(left, left + 1, right, k)
    else
      var m := (left + right) / 2;
      SerialTask(base, left, m, threshold,
                 SerialTask(base, m + 1, right, threshold, MergeTask(base, left, m, right, k)))
  }

  // mergesort_internal_parallel
  function ParallelTask(left: nat, right: int, minTaskSize: int, threshold: int, k: Prog): Prog
    requires left <= right + 1 && threshold >= 1 && minTaskSize >= 0
    decreases right + 1 - left
  {
    if right - left <= minTaskSize then SerialTask(left, left, right, threshold, k)
    else
      var m := (left + right) / 2;
      Fork(ParallelTask(left, m, minTaskSize, threshold, Done),
           ParallelTask(m + 1, right, minTaskSize, threshold, Done),
           MergeTask(left, left, m, right, k))
  }

  // ----- the elements they use -----

  lemma {:induction false} InsertDownStays(lo: nat, j: nat, k: Prog, e: Block)
    requires e.lo <= lo <= j < e.hi
    ensures Stays(InsertDown(lo, j, k), k, e)
    decreases j
  {
    hide Stays;
    StaysItself(k, e);
    var end := Store(A(j), T, k);
    StoreStays(A(j), T, k, k, e);
    if j > lo {
      var down := InsertDown(lo, j - 1, k);
      InsertDownStays(lo, j - 1, k, e);
      StoreStays(A(j), X, down, k, e);
      LoadStays(X, A(j - 1), Store(A(j), X, down), k, e);
      LessStays(Load(X, A(j - 1), Store(A(j), X, down)), end, k, e);
      LoadStays(X, A(j - 1), Less(Load(X, A(j - 1), Store(A(j), X, down)), end), k, e);
    }
  }

  lemma {:induction false} InsertFromStays(lo: nat, i: nat, hi: int, k: Prog, e: Block)
    requires e.lo <= lo < i && hi < e.hi
    ensures Stays(InsertFrom(lo, i, hi, k), k, e)
    decreases hi + 1 - i
  {
    hide Stays;
    StaysItself(k, e);
    if i <= hi {
      var rest := InsertFrom(lo, i + 1, hi, k);
      InsertFromStays(lo, i + 1, hi, k, e);
      InsertDownStays(lo, i, rest, e);
      StaysThrough(InsertDown(lo, i, rest), rest, k, e);
      LoadStays(T, A(i), InsertDown(lo, i, rest), k, e);
    }
  }

  lemma {:induction false} CopyOutStays(d: nat, p: nat, n: nat, k: Prog, e: Block)
    requires n > 0 ==> e.lo <= p && p + n <= e.hi && e.blo <= d && d + n <= e.bhi
    ensures Stays(CopyOut(d, p, n, k), k, e)
    decreases n
  {
    hide Stays;
    StaysItself(k, e);
    if n > 0 {
      var rest := CopyOut(d + 1, p + 1, n - 1, k);
      CopyOutStays(d + 1, p + 1, n - 1, k, e);
      StoreStays(B(d), X, rest, k, e);
      LoadStays(X, A(p), Store(B(d), X, rest), k, e);
    }
  }

  lemma {:induction false} CopyBackStays(d: nat, p: nat, n: nat, k: Prog, e: Block)
    requires n > 0 ==> e.lo <= d && d + n <= e.hi && e.blo <= p && p + n <= e.bhi
    ensures Stays(CopyBack(d, p, n, k), k, e)
    decreases n
  {
    hide Stays;
    StaysItself(k, e);
    if n > 0 {
      var rest := CopyBack(d + 1, p + 1, n - 1, k);
      CopyBackStays(d + 1, p + 1, n - 1, k, e);
      StoreStays(A(d), X, rest, k, e);
      LoadStays(X, B(p), Store(A(d), X, rest), k, e);
    }
  }

  lemma {:induction false} MergeFromStays(i: nat, j: nat, c: nat, right: nat, k: Prog, e: Block)
    requires c <= j <= right + 1 <= e.hi && e.lo <= c && e.blo <= i && i + (j - c) <= e.bhi
    ensures Stays(MergeFrom(i, j, c, right, k), k, e)
    decreases right + 1 - c
  {
    hide Stays;
    if c < j <= right {
      var x, y := MergeFrom(i + 1, j, c + 1, right, k), MergeFrom(i, j + 1, c + 1, right, k);
      MergeFromStays(i + 1, j, c + 1, right, k, e);
      MergeFromStays(i, j + 1, c + 1, right, k, e);
      var yes, no := Load(X, B(i), Store(A(c), X, x)), Load(X, A(j), Store(A(c), X, y));
      StoreStays(A(c), X, x, k, e);
      StoreStays(A(c), X, y, k, e);
      LoadStays(X, B(i), Store(A(c), X, x), k, e);
      LoadStays(X, A(j), Store(A(c), X, y), k, e);
      LessStays(yes, no, k, e);
      LoadStays(X, A(j), Less(yes, no), k, e);
      LoadStays(T, B(i), Load(X, A(j), Less(yes, no)), k, e);
    } else {
      CopyBackStays(c, i, j - c, k, e);
    }
  }

  lemma MergeTaskStays(bstart: nat, left: nat, m: nat, right: nat, k: Prog, e: Block)
    requires left <= m < right && e.lo <= left && right < e.hi && e.blo <= bstart && bstart + (m - left + 1) <= e.bhi
    ensures Stays(MergeTask(bstart, left, m, right, k), k, e)
  {
    hide Stays;
    var merge := MergeFrom(bstart, m + 1, left, right, k);
    var copy := CopyOut(bstart, left, m - left + 1, merge);
    StaysItself(k, e);
    MergeFromStays(bstart, m + 1, left, right, k, e);
    CopyOutStays(bstart, left, m - left + 1, merge, e);
    StaysThrough(copy, merge, k, e);
    LessStays(copy, k, k, e);
    LoadStays(T, A(m + 1), Less(copy, k), k, e);
    LoadStays(X, A(m), Load(T, A(m + 1), Less(copy, k)), k, e);
  }

  lemma {:induction false} SerialTaskStays(base: nat, left: nat, right: int, threshold: int, k: Prog, e: Block)
    requires left <= right + 1 && threshold >= 1
    requires e.lo <= left && right < e.hi && e.blo <= base && base + (right + 1 - left) <= e.bhi
    ensures Stays(SerialTask(base, left, right, threshold, k), k, e)
    decreases right + 1 - left
  {
    hide Stays;
    if right - left < threshold {
      InsertFromStays(left, left + 1, right, k, e);
    } else {
      var m := (left + right) / 2;
      var merge := MergeTask(base, left, m, right, k);
      var second := SerialTask(base, m + 1, right, threshold, merge);
      MergeTaskStays(base, left, m, right, k, e);
      SerialTaskStays(base, m + 1, right, threshold, merge, e);
      SerialTaskStays(base, left, m, threshold, second, e);
      StaysThrough(second, merge, k, e);
      StaysThrough(SerialTask(base, left, m, threshold, second), second, k, e);
    }
  }

  // A task uses its part of the array and of the buffer only, and so do those that it forks: they are disjoint.
  lemma {:induction false} ParallelTaskStays(left: nat, right: int, minTaskSize: int, threshold: int, k: Prog)
    requires left <= right + 1 && threshold >= 1 && minTaskSize >= 0
    ensures Stays(ParallelTask(left, right, minTaskSize, threshold, k), k, Block(left, right + 1, left, right + 1))
    decreases right + 1 - left
  {
    hide Stays;
    var e := Block(left, right + 1, left, right + 1);
    if right - left <= minTaskSize {
      SerialTaskStays(left, left, right, threshold, k, e);
    } else {
      var m := (left + right) / 2;
      ParallelTaskStays(left, m, minTaskSize, threshold, Done);
      ParallelTaskStays(m + 1, right, minTaskSize, threshold, Done);
      MergeTaskStays(left, left, m, right, k, e);
      ForkStays(ParallelTask(left, m, minTaskSize, threshold, Done),
                ParallelTask(m + 1, right, minTaskSize, threshold, Done),
                MergeTask(left, left, m, right, k), k, Block(left, m + 1, left, m + 1),
                    Block(m + 1, right + 1, m + 1, right + 1), e);
    }
  }

  // ----- what they do, one after the other -----

  // a is s with the elements from j to i moved up by one, to make room for s[i], which is less than they are.
  ghost predicate Shifting(s: seq<int>, a: seq<int>, lo: nat, i: nat, j: nat) {
    && lo <= j <= i < |s| == |a|
    && (forall x :: 0 <= x < |s| && (x <= j || x > i) && x != i ==> a[x] == s[x])
    && (forall x :: j < x <= i ==> a[x] == s[x - 1])
    && (forall x :: j <= x < i ==> s[i] < s[x])
  }

  lemma {:induction false} InsertDownDoes(s: seq<int>, lo: nat, i: nat, j: nat, k: Prog, regs: Regs, m: Mem)
    returns (regs': Regs, m': Mem)
    requires Shifting(s, m.a, lo, i, j) && Sorted(s[lo..i]) && regs.t == s[i]
    ensures Eval(InsertDown(lo, j, k), regs, m) == Eval(k, regs', m')
    ensures m'.a == SortRange(s, lo, i + 1) && m'.b == m.b
    decreases j
  {
    hide SortRange, Sorted;
    var end := Store(A(j), T, k);
    regs', m' := regs, Put(m, A(j), s[i]);
    if j > lo {
      var down := InsertDown(lo, j - 1, k);
      var yes := Load(X, A(j - 1), Store(A(j), X, down));
      var regs1 := regs.(x := m.a[j - 1]);
      assert Eval(InsertDown(lo, j, k), regs, m) == Eval(Less(yes, end), regs1, m);
      regs' := regs1;
      if s[i] < m.a[j - 1] {
        var m1 := Put(m, A(j), m.a[j - 1]);
        assert Eval(yes, regs1, m) == Eval(Store(A(j), X, down), regs1, m) == Eval(down, regs1, m1);
        regs', m' := InsertDownDoes(s, lo, i, j - 1, k, regs1, m1);
        return;
      }
      assert Eval(Less(yes, end), regs1, m) == Eval(end, regs1, m);
    }
    assert m'.a == MovedDown(s, i, j);
    InsertedInOrder(s, lo, i, j);
  }

  lemma ShiftingStarts(s: seq<int>, lo: nat, i: nat)
    requires lo <= i < |s|
    ensures Shifting(s, s, lo, i, i)
  {
  }

  lemma SortedPrefix(s: seq<int>, lo: nat, i: nat)
    requires lo <= i <= |s|
    ensures |SortRange(s, lo, i)| == |s| && Sorted(SortRange(s, lo, i)[lo..i])
  {
    hide Sorting, Sorted;
    SortRangeParts(s, lo, i);
    SortingSorts(s[lo..i]);
  }

  lemma {:induction false} InsertFromDoes(s: seq<int>, lo: nat, i: nat, hi: int, k: Prog, regs: Regs, m: Mem)
    returns (regs': Regs, m': Mem)
    requires lo < i <= hi + 1 <= |s| && m.a == SortRange(s, lo, i)
    ensures Eval(InsertFrom(lo, i, hi, k), regs, m) == Eval(k, regs', m')
    ensures m'.a == SortRange(s, lo, hi + 1) && m'.b == m.b
    decreases hi + 1 - i
  {
    regs', m' := regs, m;
    if i <= hi {
      hide Sorting, SortRange, Sorted, Shifting, InsertDown;
      SortedPrefix(s, lo, i);
      ShiftingStarts(m.a, lo, i);
      SortRangeGrows(s, lo, i);
      var rest := InsertFrom(lo, i + 1, hi, k);
      var regs1 := regs.(t := m.a[i]);
      assert Eval(InsertFrom(lo, i, hi, k), regs, m) == Eval(InsertDown(lo, i, rest), regs1, m);
      var regs2, m2 := InsertDownDoes(m.a, lo, i, i, rest, regs1, m);
      regs', m' := InsertFromDoes(s, lo, i + 1, hi, k, regs2, m2);
    }
  }

  lemma {:induction false} CopyOutDoes(d: nat, p: nat, n: nat, k: Prog, regs: Regs, m: Mem)
    returns (regs': Regs, m': Mem)
    requires p + n <= |m.a| && d + n <= |m.b|
    ensures Eval(CopyOut(d, p, n, k), regs, m) == Eval(k, regs', m') && m'.a == m.a
    ensures SameOutside(m.b, m'.b, d, d + n) && forall w :: d <= w < d + n ==> m'.b[w] == m.a[w - d + p]
    decreases n
  {
    regs', m' := regs, m;
    if n > 0 {
      var rest := CopyOut(d + 1, p + 1, n - 1, k);
      var regs1, m1 := regs.(x := m.a[p]), Put(m, B(d), m.a[p]);
      assert Eval(CopyOut(d, p, n, k), regs, m) == Eval(Store(B(d), X, rest), regs1, m) == Eval(rest, regs1, m1);
      regs', m' := CopyOutDoes(d + 1, p + 1, n - 1, k, regs1, m1);
    }
  }

  lemma {:induction false} CopyBackDoes(d: nat, p: nat, n: nat, k: Prog, regs: Regs, m: Mem)
    returns (regs': Regs, m': Mem)
    requires d + n <= |m.a| && p + n <= |m.b|
    ensures Eval(CopyBack(d, p, n, k), regs, m) == Eval(k, regs', m') && m'.b == m.b
    ensures SameOutside(m.a, m'.a, d, d + n) && forall w :: d <= w < d + n ==> m'.a[w] == m.b[w - d + p]
    decreases n
  {
    regs', m' := regs, m;
    if n > 0 {
      var rest := CopyBack(d + 1, p + 1, n - 1, k);
      var regs1, m1 := regs.(x := m.b[p]), Put(m, A(d), m.b[p]);
      assert Eval(CopyBack(d, p, n, k), regs, m) == Eval(Store(A(d), X, rest), regs1, m) == Eval(rest, regs1, m1);
      regs', m' := CopyBackDoes(d + 1, p + 1, n - 1, k, regs1, m1);
    }
  }

  // x is in the buffer from bstart on, y in the array up to right; p and q elements of them are merged in out.
  ghost predicate Merging(x: seq<int>, y: seq<int>, m: Mem, bstart: nat, left: nat, right: nat, p: nat, q: nat,
                          out: seq<int>)
  {
    && p <= |x| && q <= |y| && |out| == p + q && left + |x| + |y| == right + 1 <= |m.a|
    && out + Merge(x[p..], y[q..]) == Merge(x, y)
    && HeldAt(m.b, bstart, x) && HeldAt(m.a, left, out) && HeldAt(m.a, left + |x| + q, y[q..])
  }

  // merge from where p and q elements are merged: i, j and c are the code's i, j and k.
  lemma {:induction false} MergeFromDoes(x: seq<int>, y: seq<int>, bstart: nat, left: nat, right: nat, p: nat, q: nat,
                                         out: seq<int>, k: Prog, regs: Regs, m: Mem) returns (regs': Regs, m': Mem)
    requires Merging(x, y, m, bstart, left, right, p, q, out)
    ensures Eval(MergeFrom(bstart + p, left + |x| + q, left + p + q, right, k), regs, m) == Eval(k, regs', m')
    ensures m'.b == m.b && SameOutside(m.a, m'.a, left, right + 1)
    ensures |Merge(x, y)| == right + 1 - left && HeldAt(m'.a, left, Merge(x, y))
    decreases right + 1 - left - p - q
  {
    hide Merge;
    var i, j, c := bstart + p, left + |x| + q, left + p + q;
    MergeLength(x, y);
    if c < j <= right {
      regs', m' := MergeStepDoes(x, y, bstart, left, right, p, q, out, k, regs, m);
    } else {
      regs', m' := CopyBackDoes(c, i, j - c, k, regs, m);
      MergeRest(x, y, p, q, out);
      StillHeld(m.a, m'.a, left, out, c, j);
      if p == |x| {
        StillHeld(m.a, m'.a, j, y[q..], c, j);
        HeldBoth(m'.a, left, out, y[q..]);
      } else {
        assert HeldAt(m'.a, c, x[p..]);
        HeldBoth(m'.a, left, out, x[p..]);
      }
    }
  }

  lemma {:induction false} MergeStepDoes(x: seq<int>, y: seq<int>, bstart: nat, left: nat, right: nat, p: nat, q: nat,
                                         out: seq<int>, k: Prog, regs: Regs, m: Mem) returns (regs': Regs, m': Mem)
    requires Merging(x, y, m, bstart, left, right, p, q, out) && p < |x| && q < |y|
    ensures Eval(MergeFrom(bstart + p, left + |x| + q, left + p + q, right, k), regs, m) == Eval(k, regs', m')
    ensures m'.b == m.b && SameOutside(m.a, m'.a, left, right + 1)
    ensures |Merge(x, y)| == right + 1 - left && HeldAt(m'.a, left, Merge(x, y))
    decreases right + 1 - left - p - q, 0
  {
    hide Merge, Eval, MergeFrom;
    var i, j, c := bstart + p, left + |x| + q, left + p + q;
    MergeStep(x, y, p, q, out);
    HeldRest(m.a, j, y[q..]);
    assert m.b[i] == x[p] && y[q..][1..] == y[q + 1..];
    MergeFromSteps(i, j, c, right, k, regs, m);
    if x[p] < y[q] {
      var m1 := Put(m, A(c), x[p]);
      PutNext(m.a, m1.a, left, out, c, x[p], j, y[q..], m.a, right);
      regs', m' := MergeFromDoes(x, y, bstart, left, right, p + 1, q, out + [x[p]], k, Regs(x[p], x[p]), m1);
    } else {
      var m1 := Put(m, A(c), y[q]);
      PutNext(m.a, m1.a, left, out, c, y[q], j + 1, y[q + 1..], m.a, right);
      regs', m' := MergeFromDoes(x, y, bstart, left, right, p, q + 1, out + [y[q]], k, Regs(x[p], y[q]), m1);
    }
  }

  lemma MergeFromSteps(i: nat, j: nat, c: nat, right: nat, k: Prog, regs: Regs, m: Mem)
    requires c < j <= right < |m.a| && i < |m.b|
    ensures Eval(MergeFrom(i, j, c, right, k), regs, m) ==
      if m.b[i] < m.a[j] then Eval(MergeFrom(i + 1, j, c + 1, right, k), Regs(m.b[i], m.b[i]), Put(m, A(c), m.b[i]))
      else Eval(MergeFrom(i, j + 1, c + 1, right, k), Regs(m.b[i], m.a[j]), Put(m, A(c), m.a[j]))
  {
    var one, two := MergeFrom(i + 1, j, c + 1, right, k), MergeFrom(i, j + 1, c + 1, right, k);
    var yes, no := Load(X, B(i), Store(A(c), X, one)), Load(X, A(j), Store(A(c), X, two));
    var regs1 := Regs(m.b[i], m.a[j]);
    assert Eval(MergeFrom(i, j, c, right, k), regs, m) == Eval(Load(X, A(j), Less(yes, no)), regs.(t := m.b[i]), m)
      == Eval(Less(yes, no), regs1, m);
    if m.b[i] < m.a[j] {
      var regs2 := Regs(m.b[i], m.b[i]);
      assert Eval(yes, regs1, m) == Eval(Store(A(c), X, one), regs2, m) == Eval(one, regs2, Put(m, A(c), m.b[i]));
    } else {
      assert Eval(no, regs1, m) == Eval(Store(A(c), X, two), regs1, m) == Eval(two, regs1, Put(m, A(c), m.a[j]));
    }
  }

  lemma MergeTaskDoes(bstart: nat, left: nat, m: nat, right: nat, k: Prog, regs: Regs, mem: Mem)
    returns (regs': Regs, mem': Mem)
    requires left <= m < right < |mem.a| && bstart + (m - left + 1) <= |mem.b|
    requires Sorted(mem.a[left..m + 1]) && Sorted(mem.a[m + 1..right + 1])
    ensures Eval(MergeTask(bstart, left, m, right, k), regs, mem) == Eval(k, regs', mem')
    ensures mem'.a == MergedAt(mem.a, left, m, right) && SameOutside(mem.b, mem'.b, bstart, bstart + (m - left + 1))
  {
    hide Sorted, Merge, Merging;
    var s := mem.a;
    var x, y := s[left..m + 1], s[m + 1..right + 1];
    var merge := MergeFrom(bstart, m + 1, left, right, k);
    var copy := CopyOut(bstart, left, m - left + 1, merge);
    var regs1 := Regs(s[m + 1], s[m]);
    assert Eval(MergeTask(bstart, left, m, right, k), regs, mem)
      == Eval(Load(T, A(m + 1), Less(copy, k)), regs.(x := s[m]), mem) == Eval(Less(copy, k), regs1, mem);
    if s[m + 1] < s[m] {
      var regs2, mem2 := CopyOutDoes(bstart, left, m - left + 1, merge, regs1, mem);
      MergingStarts(x, y, mem2, bstart, left, m, right);
      regs', mem' := MergeFromDoes(x, y, bstart, left, right, 0, 0, [], k, regs2, mem2);
      Merged(s, mem'.a, left, m, right);
    } else {
      regs', mem' := regs1, mem;
      InOrderAlready(s, left, m, right);
    }
  }

  lemma MergingStarts(x: seq<int>, y: seq<int>, mem: Mem, bstart: nat, left: nat, m: nat, right: nat)
    requires left <= m < right < |mem.a| && x == mem.a[left..m + 1] && y == mem.a[m + 1..right + 1]
    requires HeldAt(mem.b, bstart, x)
    ensures Merging(x, y, mem, bstart, left, right, 0, 0, [])
  {
    assert x[0..] == x && y[0..] == y;
  }

  lemma Merged(s: seq<int>, t: seq<int>, left: nat, m: nat, right: nat)
    requires left <= m < right < |s| && SameOutside(s, t, left, right + 1)
    requires |Merge(s[left..m + 1], s[m + 1..right + 1])| == right + 1 - left
    requires HeldAt(t, left, Merge(s[left..m + 1], s[m + 1..right + 1]))
    ensures t == MergedAt(s, left, m, right)
  {
    hide Merge;
  }

  lemma OutsideThrough(s: seq<int>, t: seq<int>, u: seq<int>, lo: int, hi: int, lo': int, hi': int, from: int, to: int)
    requires SameOutside(s, t, lo, hi) && (SameOutside(t, u, lo', hi') || t == u) && from <= lo && hi <= to
    requires from <= lo' && hi' <= to
    ensures SameOutside(s, u, from, to)
  {
  }

  lemma SortRangeLength(s: seq<int>, lo: nat, hi: nat)
    requires lo <= hi <= |s|
    ensures |SortRange(s, lo, hi)| == |s|
  {
    SortRangeParts(s, lo, hi);
  }

  lemma HalvesThenMerge(s: seq<int>, t: seq<int>, u: seq<int>, left: nat, m: nat, right: nat)
    requires left <= m < right < |s| == |t| && t == SortRange(s, left, m + 1) && u == SortRange(t, m + 1, right + 1)
    ensures |u| == |s| && Sorted(u[left..m + 1]) && Sorted(u[m + 1..right + 1])
    ensures MergedAt(u, left, m, right) == SortRange(s, left, right + 1)
  {
    hide SortRange, Sorted, MergedAt;
    HalvesSorted(s, left, m, right);
  }

  lemma InsertionDoes(base: nat, left: nat, right: int, k: Prog, regs: Regs, m: Mem) returns (regs': Regs, m': Mem)
    requires left <= right + 1 <= |m.a|
    ensures Eval(InsertFrom(left, left + 1, right, k), regs, m) == Eval(k, regs', m')
    ensures m'.a == SortRange(m.a, left, right + 1) && SameOutside(m.b, m'.b, base, base + (right + 1 - left))
  {
    ShortRange(m.a, left, right + 1);
    if left <= right {
      regs', m' := InsertFromDoes(m.a, left, left + 1, right, k, regs, m);
    } else {
      regs', m' := regs, m;
    }
  }

  lemma {:induction false} SerialTaskDoes(base: nat, left: nat, right: int, threshold: int, k: Prog, regs: Regs, m: Mem)
    returns (regs': Regs, m': Mem)
    requires left <= right + 1 <= |m.a| && threshold >= 1 && base + (right + 1 - left) <= |m.b|
    ensures Eval(SerialTask(base, left, right, threshold, k), regs, m) == Eval(k, regs', m')
    ensures m'.a == SortRange(m.a, left, right + 1) && SameOutside(m.b, m'.b, base, base + (right + 1 - left))
    decreases right + 1 - left
  {
    hide SortRange, MergedAt, Sorted, InsertFrom, MergeTask, SameOutside;
    if right - left < threshold {
      regs', m' := InsertionDoes(base, left, right, k, regs, m);
    } else {
      var c := (left + right) / 2;
      var merge := MergeTask(base, left, c, right, k);
      SortRangeLength(m.a, left, c + 1);
      var regs1, m1 := SerialTaskDoes(base, left, c, threshold, SerialTask(base, c + 1, right, threshold, merge), regs,
                                      m);
      OutsideThrough(m.b, m1.b, m1.b, base, base + (c + 1 - left), base, base + (c + 1 - left), base,
                     base + (right + 1 - left));
      var regs2, m2 := SerialTaskDoes(base, c + 1, right, threshold, merge, regs1, m1);
      OutsideThrough(m.b, m1.b, m2.b, base, base + (c + 1 - left), base, base + (right - c), base,
                     base + (right + 1 - left));
      HalvesThenMerge(m.a, m1.a, m2.a, left, c, right);
      regs', m' := MergeTaskDoes(base, left, c, right, k, regs2, m2);
      OutsideThrough(m.b, m2.b, m'.b, base, base + (right + 1 - left), base, base + (c - left + 1), base,
                     base + (right + 1 - left));
    }
  }

  lemma {:induction false} ParallelTaskDoes(left: nat, right: int, minTaskSize: int, threshold: int, k: Prog,
                                            regs: Regs, m: Mem)
    returns (regs': Regs, m': Mem)
    requires left <= right + 1 <= |m.a| && right + 1 <= |m.b| && threshold >= 1 && minTaskSize >= 0
    ensures Eval(ParallelTask(left, right, minTaskSize, threshold, k), regs, m) == Eval(k, regs', m')
    ensures m'.a == SortRange(m.a, left, right + 1) && SameOutside(m.b, m'.b, left, right + 1)
    decreases right + 1 - left
  {
    hide SortRange, MergedAt, Sorted, SerialTask, MergeTask, SameOutside, Eval;
    if right - left <= minTaskSize {
      regs', m' := SerialTaskDoes(left, left, right, threshold, k, regs, m);
    } else {
      var c := (left + right) / 2;
      SortRangeLength(m.a, left, c + 1);
      var x, y := ParallelTask(left, c, minTaskSize, threshold, Done),
          ParallelTask(c + 1, right, minTaskSize, threshold, Done);
      var regs1, m1 := ParallelTaskDoes(left, c, minTaskSize, threshold, Done, NO_REGS, m);
      OutsideThrough(m.b, m1.b, m1.b, left, c + 1, left, c + 1, left, right + 1);
      var regs2, m2 := ParallelTaskDoes(c + 1, right, minTaskSize, threshold, Done, NO_REGS, m1);
      OutsideThrough(m.b, m1.b, m2.b, left, c + 1, c + 1, right + 1, left, right + 1);
      HalvesThenMerge(m.a, m1.a, m2.a, left, c, right);
      DoneEval(regs1, m1);
      DoneEval(regs2, m2);
      ForkEval(x, y, MergeTask(left, left, c, right, k), regs, m);
      regs', m' := MergeTaskDoes(left, left, c, right, k, regs, m2);
      OutsideThrough(m.b, m2.b, m'.b, left, right + 1, left, c + 1, left, right + 1);
    }
  }

  // ----- every schedule -----

  // However the accesses of the tasks interleave: the forks have no races, every schedule is finite and can go on
  // until all is done, and then the range is sorted, and else only its part of the buffer has changed.
  lemma EveryScheduleSorts(left: nat, right: int, minTaskSize: int, threshold: int, ws: seq<Way>, m: Mem)
    requires left <= right + 1 <= |m.a| && right + 1 <= |m.b| && threshold >= 1 && minTaskSize >= 0
    requires Possible(Single(NO_REGS, ParallelTask(left, right, minTaskSize, threshold, Done)), ws, m)
    ensures
      var p := ParallelTask(left, right, minTaskSize, threshold, Done);
      var end := After(Single(NO_REGS, p), ws, m);
      && RaceFree(p) && (forall l :: l in Locs(p) ==> Inside(m, l)) && |ws| <= Size(p)
      && if Finished(end.0)
         then end.1.a == SortRange(m.a, left, right + 1) && SameOutside(m.b, end.1.b, left, right + 1)
         else exists w :: Enabled(end.0, w)
  {
    var p := ParallelTask(left, right, minTaskSize, threshold, Done);
    ParallelTaskStays(left, right, minTaskSize, threshold, Done);
    hide ParallelTask, SortRange;
    AnyScheduleEndsTheSame(p, ws, m);
    var regs', m' := ParallelTaskDoes(left, right, minTaskSize, threshold, Done, NO_REGS, m);
  }

  // mergesort_internal_parallel, in any interleaving
  method MergesortParallel(a: array<int>, tmp: array<int>, left: nat, right: int, minTaskSize: int,
                           insertionThreshold: int)
    requires a != tmp && left <= right + 1 <= a.Length && right + 1 <= tmp.Length && insertionThreshold >= 1
    requires minTaskSize >= 0
    modifies a, tmp
    ensures a[..] == SortRange(old(a[..]), left, right + 1)
    ensures SameOutside(old(tmp[..]), tmp[..], left, right + 1)
  {
    ghost var m := Mem(a[..], tmp[..]);
    ParallelTaskStays(left, right, minTaskSize, insertionThreshold, Done);
    hide ParallelTask, SortRange;
    ghost var regs', m' := ParallelTaskDoes(left, right, minTaskSize, insertionThreshold, Done, NO_REGS, m);
    RunAll(ParallelTask(left, right, minTaskSize, insertionThreshold, Done), a, tmp);
  }

  // mergesort_parallel
  method Sort(a: array<int>, minTaskSize: int, insertionThreshold: int)
    requires insertionThreshold >= 1 && minTaskSize >= 0
    modifies a
    ensures a[..] == Sorting(old(a[..])) && Sorted(a[..]) && Permutes(old(a[..]), a[..])
  {
    ghost var s := a[..];
    var tmp := new int[a.Length];
    MergesortParallel(a, tmp, 0, a.Length - 1, minTaskSize, insertionThreshold);
    SortingSorts(s);
    assert s[0..|s|] == s;
  }
}
