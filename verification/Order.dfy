/** What a stable sort is: a strict weak order, nondecreasing sequences, runs, and
    the subsequence of the elements equivalent to a given one. */
module Order {
  type Less = (nat, nat) -> bool

  ghost predicate StrictWeakOrder(less: Less) {
    && (forall x :: !less(x, x))
    && (forall x, y, z :: less(x, y) && less(y, z) ==> less(x, z))
    && (forall x, y, z :: less(x, z) ==> less(x, y) || less(y, z))
  }

  lemma Between(less: Less, x: nat, y: nat, z: nat)
    requires StrictWeakOrder(less)
    ensures less(x, z) ==> less(x, y) || less(y, z)
  {
  }

  predicate Equivalent(less: Less, x: nat, y: nat) { !less(x, y) && !less(y, x) }

  // No later element is less than an earlier one.
  ghost predicate Sorted(less: Less, s: seq<nat>) {
    forall i, j :: 0 <= i < j < |s| ==> !less(s[j], s[i])
  }

  // The elements of s equivalent to x, in their order in s.
  ghost function Class(less: Less, s: seq<nat>, x: nat): seq<nat> {
    if s == [] then []
    else (if Equivalent(less, s[0], x) then [s[0]] else []) + Class(less, s[1..], x)
  }

  // t has the elements of s, and equivalent ones in the same order as in s.
  ghost predicate StablePermutation(less: Less, s: seq<nat>, t: seq<nat>) {
    forall x :: Class(less, t, x) == Class(less, s, x)
  }

  // The number of maximal nondecreasing runs.
  ghost function Runs(less: Less, s: seq<nat>): nat {
    if |s| == 0 then 0
    else if |s| == 1 then 1
    else Runs(less, s[1..]) + if less(s[1], s[0]) then 1 else 0
  }

  lemma ClassFrom(less: Less, h: nat, s: seq<nat>, x: nat)
    ensures Class(less, [h] + s, x) == (if Equivalent(less, h, x) then [h] else []) + Class(less, s, x)
  {
    assert ([h] + s)[1..] == s;
  }

  lemma {:induction false} ClassConcat(less: Less, s: seq<nat>, t: seq<nat>, x: nat)
    ensures Class(less, s + t, x) == Class(less, s, x) + Class(less, t, x)
  {
    if s == [] {
      assert s + t == t;
    } else {
      hide Class, Equivalent;
      var h, r := s[0], s[1..];
      ClassConcat(less, r, t, x);
      ClassFrom(less, h, r, x);
      ClassFrom(less, h, r + t, x);
      assert s == [h] + r && s + t == [h] + (r + t);
    }
  }

  // An element moves ahead of elements it is less than.
  lemma MoveKeepsClasses(less: Less, p: seq<nat>, mid: seq<nat>, e: nat, q: seq<nat>)
    requires StrictWeakOrder(less)
    requires forall i :: 0 <= i < |mid| ==> less(e, mid[i])
    ensures StablePermutation(less, p + mid + [e] + q, p + [e] + mid + q)
  {
    forall x
      ensures Class(less, p + [e] + mid + q, x) == Class(less, p + mid + [e] + q, x)
    {
      MoveKeepsClass(less, p, mid, e, q, x);
    }
  }

  lemma MoveKeepsClass(less: Less, p: seq<nat>, mid: seq<nat>, e: nat, q: seq<nat>, x: nat)
    requires StrictWeakOrder(less)
    requires forall i :: 0 <= i < |mid| ==> less(e, mid[i])
    ensures Class(less, p + [e] + mid + q, x) == Class(less, p + mid + [e] + q, x)
  {
    if Equivalent(less, e, x) {
      NoneEquivalent(less, mid, x);
    }
    ClassOfOne(less, e, x);
    hide Class, Equivalent, StrictWeakOrder;
    ClassOfFour(less, p, [e], mid, q, x);
    ClassOfFour(less, p, mid, [e], q, x);
    var one, more := Class(less, [e], x), Class(less, mid, x);
    assert one == [] || more == [];
    assert Class(less, p, x) + one + more == Class(less, p, x) + more + one;
  }

  lemma ClassOfFour(less: Less, p: seq<nat>, s: seq<nat>, t: seq<nat>, q: seq<nat>, x: nat)
    ensures Class(less, p + s + t + q, x) ==
      Class(less, p, x) + Class(less, s, x) + Class(less, t, x) + Class(less, q, x)
  {
    hide Class;
    ClassConcat(less, p + s + t, q, x);
    ClassConcat(less, p + s, t, x);
    ClassConcat(less, p, s, x);
  }

  lemma ClassOfOne(less: Less, e: nat, x: nat)
    ensures Class(less, [e], x) == if Equivalent(less, e, x) then [e] else []
  {
    assert [e][1..] == [];
  }

  lemma {:induction false} NoneEquivalent(less: Less, s: seq<nat>, x: nat)
    requires forall i :: 0 <= i < |s| ==> !Equivalent(less, s[i], x)
    ensures Class(less, s, x) == []
  {
    if s != [] {
      NoneEquivalent(less, s[1..], x);
    }
  }

  lemma {:induction false} SortedHasOneRun(less: Less, s: seq<nat>)
    requires Sorted(less, s)
    ensures Runs(less, s) <= 1
  {
    if |s| > 1 {
      SortedHasOneRun(less, s[1..]);
    }
  }

  lemma {:induction false} OneRunIsSorted(less: Less, s: seq<nat>)
    requires StrictWeakOrder(less) && Runs(less, s) <= 1
    ensures Sorted(less, s)
  {
    if |s| > 1 {
      OneRunIsSorted(less, s[1..]);
      RunsPositive(less, s[1..]);
    }
  }

  lemma {:induction false} RunsPositive(less: Less, s: seq<nat>)
    requires s != []
    ensures Runs(less, s) >= 1
  {
    if |s| > 1 {
      RunsPositive(less, s[1..]);
    }
  }

  lemma {:induction false} RunsConcat(less: Less, s: seq<nat>, t: seq<nat>)
    requires s != [] && t != []
    ensures Runs(less, s + t) == Runs(less, s) + Runs(less, t) - if less(t[0], s[|s| - 1]) then 0 else 1
  {
    if |s| == 1 {
      assert (s + t)[1..] == t;
    } else {
      assert (s + t)[1..] == s[1..] + t;
      RunsConcat(less, s[1..], t);
    }
  }

  // A sorted stable permutation is unique: the conditions leave nothing open.
  lemma StableSortIsUnique(less: Less, s: seq<nat>, t: seq<nat>, t': seq<nat>)
    requires StrictWeakOrder(less)
    requires StablePermutation(less, s, t) && StablePermutation(less, s, t')
    requires Sorted(less, t) && Sorted(less, t')
    ensures t == t'
  {
    forall x ensures Class(less, t', x) == Class(less, t, x) {
      assert Class(less, t, x) == Class(less, s, x) == Class(less, t', x);
    }
    SortedStableEqual(less, t, t');
  }

  lemma {:induction false} SortedStableEqual(less: Less, t: seq<nat>, t': seq<nat>)
    requires StrictWeakOrder(less) && Sorted(less, t) && Sorted(less, t')
    requires StablePermutation(less, t, t')
    ensures t == t'
  {
    if t == [] {
      if t' != [] {
        ClassMember(less, t', t'[0], 0);
      }
    } else {
      FirstOfClass(less, t, t', t[0]);
      StableTails(less, t, t');
      SortedStableEqual(less, t[1..], t'[1..]);
    }
  }

  lemma {:induction false} ClassCounts(less: Less, s: seq<nat>, x: nat)
    requires StrictWeakOrder(less)
    ensures multiset(Class(less, s, x))[x] == multiset(s)[x]
  {
    if s != [] {
      assert s == [s[0]] + s[1..];
      ClassCounts(less, s[1..], x);
    }
  }

  lemma StableIsPermutation(less: Less, s: seq<nat>, t: seq<nat>)
    requires StrictWeakOrder(less) && StablePermutation(less, s, t)
    ensures multiset(t) == multiset(s)
  {
    forall x: nat ensures multiset(t)[x] == multiset(s)[x] {
      ClassCounts(less, s, x);
      ClassCounts(less, t, x);
      assert Class(less, t, x) == Class(less, s, x);
    }
  }

  lemma {:induction false} ClassMember(less: Less, s: seq<nat>, x: nat, k: nat)
    requires k < |s| && Equivalent(less, s[k], x)
    ensures Class(less, s, x) != []
  {
    if k > 0 { ClassMember(less, s[1..], x, k - 1); }
  }

  lemma {:induction false} ClassFirst(less: Less, s: seq<nat>, x: nat) returns (k: nat)
    requires Class(less, s, x) != []
    ensures k < |s| && s[k] == Class(less, s, x)[0] && Equivalent(less, s[k], x)
    ensures forall i :: 0 <= i < k ==> !Equivalent(less, s[i], x)
  {
    if Equivalent(less, s[0], x) {
      k := 0;
    } else {
      k := ClassFirst(less, s[1..], x);
      k := k + 1;
    }
  }

  lemma FirstOfClass(less: Less, t: seq<nat>, t': seq<nat>, x: nat)
    requires StrictWeakOrder(less) && Sorted(less, t) && Sorted(less, t')
    requires StablePermutation(less, t, t') && t != [] && x == t[0]
    ensures t' != [] && t'[0] == x
  {
    assert Class(less, t', x) == Class(less, t, x);
    ClassMember(less, t, x, 0);
    var k := ClassFirst(less, t', x);
    if k != 0 {
      var y := t'[0];
      assert less(y, x);
      ClassMember(less, t', y, 0);
      assert Class(less, t', y) == Class(less, t, y);
      var j := ClassFirst(less, t, y);
      assert false;
    }
  }

  lemma StableTails(less: Less, t: seq<nat>, t': seq<nat>)
    requires t != [] && t' != [] && t[0] == t'[0] && StablePermutation(less, t, t')
    ensures StablePermutation(less, t[1..], t'[1..])
  {
    forall x ensures Class(less, t'[1..], x) == Class(less, t[1..], x) {
      assert Class(less, t', x) == Class(less, t, x);
      var e := if Equivalent(less, t[0], x) then [t[0]] else [];
      assert Class(less, t[1..], x) == (e + Class(less, t[1..], x))[|e|..];
      assert Class(less, t'[1..], x) == (e + Class(less, t'[1..], x))[|e|..];
    }
  }
}
