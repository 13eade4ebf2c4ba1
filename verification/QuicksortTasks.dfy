/** The parallel quick sort of threadlab/tests/quicksort.c as forked tasks, in any interleaving of their accesses. */
module QuicksortTasks {
  import opened IntSorting
  import opened Forks
  import opened Quicksort

  // ----- the programs; k is what follows -----

  function SwapTask(i: nat, j: nat, k: Prog): Prog {
    Load(T, A(i), Load(X, A(j), Store(A(i), X, Store(A(j), T, k))))
  }

  // qsort_internal_parallel, and from depth 0 on qsort_internal_serial
  function SortTask(left: nat, right: int, depth: int, k: Prog): Prog
    requires left <= right + 1
    decreases right + 1 - left, 3, 0
  {
    if left >= right then k
    else SwapTask(left, left + (right - left) / 2, ScanTask(left, left + 1, left, right, depth, k))
  }

  // The loop of qsort_partition, and what follows it.
  function ScanTask(left: nat, current: nat, last: nat, right: nat, depth: int, k: Prog): Prog
    requires left <= last < current <= right + 1
    decreases right + 1 - left, 2, right + 1 - current
  {
    if current > right then SwapTask(left, last, SidesTask(left, last, right, depth, k))
    else
      Load(T, A(current), Load(X, A(left), Less(
        SwapTask(last + 1, current, ScanTask(left, current + 1, last + 1, right, depth, k)),
        ScanTask(left, current + 1, last, right, depth, k))))
  }

  function SidesTask(left: nat, split: nat, right: nat, depth: int, k: Prog): Prog
    requires left <= split <= right
    decreases right + 1 - left, 1, 0
  {
    if depth < 1 then SortTask(left, split as int - 1, depth, SortTask(split + 1, right, depth, k))
    else Fork(SortTask(left, split as int - 1, depth - 1, Done), SortTask(split + 1, right, depth - 1, Done), k)
  }

  // ----- the elements they use -----

  lemma SwapTaskStays(i: nat, j: nat, next: Prog, k: Prog, e: Block)
    requires e.lo <= i < e.hi && e.lo <= j < e.hi && Stays(next, k, e)
    ensures Stays(SwapTask(i, j, next), k, e)
  {
    hide Stays;
    StoreStays(A(j), T, next, k, e);
    StoreStays(A(i), X, Store(A(j), T, next), k, e);
    LoadStays(X, A(j), Store(A(i), X, Store(A(j), T, next)), k, e);
    LoadStays(T, A(i), Load(X, A(j), Store(A(i), X, Store(A(j), T, next))), k, e);
  }

  // A task uses its part of the array only, and so do those that it forks: they are disjoint.
  lemma {:induction false} SortTaskStays(left: nat, right: int, depth: int, k: Prog)
    requires left <= right + 1
    ensures Stays(SortTask(left, right, depth, k), k, Block(left, right + 1, 0, 0))
    decreases right + 1 - left, 3, 0
  {
    hide Stays;
    var e := Block(left, right + 1, 0, 0);
    StaysItself(k, e);
    if left < right {
      ScanTaskStays(left, left + 1, left, right, depth, k);
      SwapTaskStays(left, left + (right - left) / 2, ScanTask(left, left + 1, left, right, depth, k), k, e);
    }
  }

  lemma {:induction false} ScanTaskStays(left: nat, current: nat, last: nat, right: nat, depth: int, k: Prog)
    requires left <= last < current <= right + 1
    ensures Stays(ScanTask(left, current, last, right, depth, k), k, Block(left, right + 1, 0, 0))
    decreases right + 1 - left, 2, right + 1 - current
  {
    hide Stays;
    var e := Block(left, right + 1, 0, 0);
    if current > right {
      SidesTaskStays(left, last, right, depth, k);
      SwapTaskStays(left, last, SidesTask(left, last, right, depth, k), k, e);
    } else {
      var x, y := ScanTask(left, current + 1, last + 1, right, depth, k),
          ScanTask(left, current + 1, last, right, depth, k);
      ScanTaskStays(left, current + 1, last + 1, right, depth, k);
      ScanTaskStays(left, current + 1, last, right, depth, k);
      SwapTaskStays(last + 1, current, x, k, e);
      LessStays(SwapTask(last + 1, current, x), y, k, e);
      LoadStays(X, A(left), Less(SwapTask(last + 1, current, x), y), k, e);
      LoadStays(T, A(current), Load(X, A(left), Less(SwapTask(last + 1, current, x), y)), k, e);
    }
  }

  lemma {:induction false} SidesTaskStays(left: nat, split: nat, right: nat, depth: int, k: Prog)
    requires left <= split <= right
    ensures Stays(SidesTask(left, split, right, depth, k), k, Block(left, right + 1, 0, 0))
    decreases right + 1 - left, 1, 0
  {
    hide Stays;
    var e, d, f := Block(left, right + 1, 0, 0), Block(left, split, 0, 0), Block(split + 1, right + 1, 0, 0);
    if depth < 1 {
      var second := SortTask(split + 1, right, depth, k);
      SortTaskStays(split + 1, right, depth, k);
      SortTaskStays(left, split as int - 1, depth, second);
      StaysWider(second, k, f, e);
      StaysWider(SortTask(left, split as int - 1, depth, second), second, d, e);
      StaysThrough(SortTask(left, split as int - 1, depth, second), second, k, e);
    } else {
      SortTaskStays(left, split as int - 1, depth - 1, Done);
      SortTaskStays(split + 1, right, depth - 1, Done);
      StaysItself(k, e);
      ForkStays(SortTask(left, split as int - 1, depth - 1, Done), SortTask(split + 1, right, depth - 1, Done), k, k, d,
                f, e);
    }
  }

  // ----- what they do, one after the other -----

  lemma SwapTaskDoes(i: nat, j: nat, k: Prog, regs: Regs, m: Mem) returns (regs': Regs, m': Mem)
    requires i < |m.a| && j < |m.a|
    ensures Eval(SwapTask(i, j, k), regs, m) == Eval(k, regs', m')
    ensures Swapped(m.a, m'.a, i, j) && m'.b == m.b
  {
    var x, y := m.a[i], m.a[j];
    regs' := Regs(x, y);
    var m1 := Put(m, A(i), y);
    m' := Put(m1, A(j), x);
    var two := Store(A(j), T, k);
    var one := Store(A(i), X, two);
    assert Eval(SwapTask(i, j, k), regs, m) == Eval(Load(X, A(j), one), regs.(t := x), m) == Eval(one, regs', m)
      == Eval(two, regs', m1) == Eval(k, regs', m');
  }

  // The part of the array scanned so far: less than the first element up to last, and not less after it.
  ghost predicate Scanned(s: seq<int>, a: seq<int>, left: nat, current: nat, last: nat, right: nat) {
    && left <= last < current <= right + 1 <= |a| && Rearranged(s, a, left, right + 1)
    && (forall i :: left < i <= last ==> a[i] < a[left])
    && (forall i :: last < i < current ==> a[left] <= a[i])
  }

  lemma {:induction false} SortTaskDoes(left: nat, right: int, depth: int, k: Prog, regs: Regs, m: Mem)
    returns (regs': Regs, m': Mem)
    requires left <= right + 1 <= |m.a|
    ensures Eval(SortTask(left, right, depth, k), regs, m) == Eval(k, regs', m')
    ensures m'.a == SortRange(m.a, left, right + 1) && m'.b == m.b
    decreases right + 1 - left, 3, 0
  {
    hide SortRange, Eval, ScanTask, SwapTask, Rearranged, Swapped;
    if left >= right {
      ShortRange(m.a, left, right + 1);
      regs', m' := regs, m;
    } else {
      var middle := left + (right - left) / 2;
      var scan := ScanTask(left, left + 1, left, right, depth, k);
      var regs1, m1 := SwapTaskDoes(left, middle, scan, regs, m);
      RearrangedAtFirst(m.a, left, right + 1);
      StillRearranged(m.a, m.a, m1.a, left, middle, left, right + 1);
      SameLength(m.a, m1.a, left, right + 1);
      regs', m' := ScanTaskDoes(m.a, left, left + 1, left, right, depth, k, regs1, m1);
    }
  }

  lemma SameLength(s: seq<int>, t: seq<int>, lo: int, hi: int)
    requires Rearranged(s, t, lo, hi)
    ensures |s| == |t|
  {
  }

  lemma {:induction false} ScanTaskDoes(s: seq<int>, left: nat, current: nat, last: nat, right: nat, depth: int,
                                        k: Prog,
                                        regs: Regs, m: Mem) returns (regs': Regs, m': Mem)
    requires left < right && Scanned(s, m.a, left, current, last, right)
    ensures Eval(ScanTask(left, current, last, right, depth, k), regs, m) == Eval(k, regs', m')
    ensures |s| > right && m'.a == SortRange(s, left, right + 1) && m'.b == m.b
    decreases right + 1 - left, 2, right + 1 - current
  {
    hide SortRange, Eval, SwapTask, SidesTask, Rearranged, Swapped, Parted;
    SameLength(s, m.a, left, right + 1);
    if current > right {
      var sides := SidesTask(left, last, right, depth, k);
      var regs1, m1 := SwapTaskDoes(left, last, sides, regs, m);
      StillRearranged(s, m.a, m1.a, left, last, left, right + 1);
      ScanEnds(m.a, m1.a, left, last, right);
      regs', m' := SidesTaskDoes(s, left, last, right, depth, k, regs1, m1);
    } else {
      ScanSteps(left, current, last, right, depth, k, regs, m);
      var regs1 := Regs(m.a[current], m.a[left]);
      if m.a[current] < m.a[left] {
        var scan := ScanTask(left, current + 1, last + 1, right, depth, k);
        var regs2, m2 := SwapTaskDoes(last + 1, current, scan, regs1, m);
        StillRearranged(s, m.a, m2.a, last + 1, current, left, right + 1);
        ScannedMore(s, m.a, m2.a, left, current, last, right);
        regs', m' := ScanTaskDoes(s, left, current + 1, last + 1, right, depth, k, regs2, m2);
      } else {
        regs', m' := ScanTaskDoes(s, left, current + 1, last, right, depth, k, regs1, m);
      }
    }
  }

  lemma ScanSteps(left: nat, current: nat, last: nat, right: nat, depth: int, k: Prog, regs: Regs, m: Mem)
    requires left <= last < current <= right < |m.a|
    ensures Eval(ScanTask(left, current, last, right, depth, k), regs, m) ==
      var regs1 := Regs(m.a[current], m.a[left]);
      if m.a[current] < m.a[left]
      then Eval(SwapTask(last + 1, current, ScanTask(left, current + 1, last + 1, right, depth, k)), regs1, m)
      else Eval(ScanTask(left, current + 1, last, right, depth, k), regs1, m)
  {
    hide SwapTask;
    var x := SwapTask(last + 1, current, ScanTask(left, current + 1, last + 1, right, depth, k));
    var y := ScanTask(left, current + 1, last, right, depth, k);
    assert Eval(ScanTask(left, current, last, right, depth, k), regs, m)
      == Eval(Load(X, A(left), Less(x, y)), regs.(t := m.a[current]), m)
      == Eval(Less(x, y), Regs(m.a[current], m.a[left]), m);
  }

  lemma ScannedMore(s: seq<int>, a: seq<int>, a': seq<int>, left: nat, current: nat, last: nat, right: nat)
    requires Scanned(s, a, left, current, last, right) && current <= right && a[current] < a[left]
    requires Swapped(a, a', last + 1, current) && Rearranged(s, a', left, right + 1)
    ensures Scanned(s, a', left, current + 1, last + 1, right)
  {
    hide Rearranged;
  }

  lemma ScanEnds(a: seq<int>, a': seq<int>, left: nat, last: nat, right: nat)
    requires left <= last <= right < |a| && Swapped(a, a', left, last)
    requires (forall i :: left < i <= last ==> a[i] < a[left]) && (forall i :: last < i <= right ==> a[left] <= a[i])
    ensures Parted(a', left, last, right)
  {
  }

  lemma {:induction false} SidesTaskDoes(s: seq<int>, left: nat, split: nat, right: nat, depth: int, k: Prog,
                                         regs: Regs, m: Mem)
    returns (regs': Regs, m': Mem)
    requires left < right && Rearranged(s, m.a, left, right + 1) && Parted(m.a, left, split, right)
    ensures left <= split <= right < |s| && Eval(SidesTask(left, split, right, depth, k), regs, m) == Eval(k, regs', m')
    ensures m'.a == SortRange(s, left, right + 1) && m'.b == m.b
    decreases right + 1 - left, 1, 0
  {
    hide SortRange, Eval, SortTask, Rearranged, Parted;
    PartedRange(m.a, left, split, right);
    SameLength(s, m.a, left, right + 1);
    SidesInTurn(s, m.a, left, split, right);
    if depth < 1 {
      var second := SortTask(split + 1, right, depth, k);
      var regs1, m1 := SortTaskDoes(left, split as int - 1, depth, second, regs, m);
      regs', m' := SortTaskDoes(split + 1, right, depth, k, regs1, m1);
    } else {
      var x, y := SortTask(left, split as int - 1, depth - 1, Done), SortTask(split + 1, right, depth - 1, Done);
      var regs1, m1 := SortTaskDoes(left, split as int - 1, depth - 1, Done, NO_REGS, m);
      var regs2, m2 := SortTaskDoes(split + 1, right, depth - 1, Done, NO_REGS, m1);
      DoneEval(regs1, m1);
      DoneEval(regs2, m2);
      ForkEval(x, y, k, regs, m);
      regs', m' := regs, m2;
    }
  }

  lemma SidesInTurn(s: seq<int>, t: seq<int>, left: nat, split: nat, right: nat)
    requires Rearranged(s, t, left, right + 1) && Parted(t, left, split, right)
    ensures |SortRange(t, left, split)| == |t| == |s| > right
    ensures SortRange(SortRange(t, left, split), split + 1, right + 1) == SortRange(s, left, right + 1)
  {
    hide SortRange;
    SidesSorted(s, t, left, split, right);
  }

  // ----- every schedule -----

  // However the accesses of the tasks interleave: the forks have no races, every schedule is finite and can go on
  // until all is done, and then the range is sorted and nothing else has changed.
  lemma EveryScheduleSorts(left: nat, right: int, depth: int, ws: seq<Way>, m: Mem)
    requires left <= right + 1 <= |m.a|
    requires Possible(Single(NO_REGS, SortTask(left, right, depth, Done)), ws, m)
    ensures
      var p := SortTask(left, right, depth, Done);
      var end := After(Single(NO_REGS, p), ws, m);
      && RaceFree(p) && (forall l :: l in Locs(p) ==> Inside(m, l)) && |ws| <= Size(p)
      && if Finished(end.0) then end.1 == m.(a := SortRange(m.a, left, right + 1)) else exists w :: Enabled(end.0, w)
  {
    var p := SortTask(left, right, depth, Done);
    SortTaskStays(left, right, depth, Done);
    hide SortTask, SortRange;
    AnyScheduleEndsTheSame(p, ws, m);
    var regs', m' := SortTaskDoes(left, right, depth, Done, NO_REGS, m);
  }

  // qsort_internal_parallel, in any interleaving: the size of the segment that it sorts
  method QsortParallel(a: array<int>, left: nat, right: int, depth: int) returns (size: int)
    requires left <= right + 1 <= a.Length
    modifies a
    ensures a[..] == SortRange(old(a[..]), left, right + 1)
    ensures size == if left >= right then 0 else right - left
  {
    var none := new int[0];
    ghost var m := Mem(a[..], none[..]);
    SortTaskStays(left, right, depth, Done);
    hide SortTask, SortRange;
    ghost var regs', m' := SortTaskDoes(left, right, depth, Done, NO_REGS, m);
    RunAll(SortTask(left, right, depth, Done), a, none);
    if left >= right {
      return 0;
    }
    return right - left;
  }

  // qsort_parallel
  method Sort(a: array<int>, depth: int)
    modifies a
    ensures a[..] == Sorting(old(a[..])) && Sorted(a[..]) && Permutes(old(a[..]), a[..])
  {
    ghost var s := a[..];
    var size := QsortParallel(a, 0, a.Length - 1, depth);
    SortingSorts(s);
    assert s[0..|s|] == s;
  }
}
