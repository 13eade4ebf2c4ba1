/** The edit distance of cush/pexpect-dpty/pxssh.py. */
module EditDistance {
  function Min(x: nat, y: nat): nat { if x < y then x else y }

  function Front(s: string): string requires s != [] { s[..|s| - 1] }
  function Last(s: string): char requires s != [] { s[|s| - 1] }

  // The distance by its last characters.
  function Dist(a: string, b: string): nat
    decreases |a| + |b|
  {
    if a == [] then |b|
    else if b == [] then |a|
    else Min(Min(Dist(a, Front(b)) + 1, Dist(Front(a), b) + 1),
             Dist(Front(a), Front(b)) + if Last(a) == Last(b) then 0 else 1)
  }

  lemma {:induction false} DistSymmetric(a: string, b: string)
    ensures Dist(a, b) == Dist(b, a)
    decreases |a| + |b|
  {
    if a != [] && b != [] {
      DistSymmetric(a, Front(b));
      DistSymmetric(Front(a), b);
      DistSymmetric(Front(a), Front(b));
    }
  }

  // ----- edits -----

  datatype Edit = Insert(i: nat, c: char) | Delete(i: nat) | Change(i: nat, c: char)

  predicate CanEdit(s: string, e: Edit) { if e.Insert? then e.i <= |s| else e.i < |s| }

  function Edited(s: string, e: Edit): string
    requires CanEdit(s, e)
  {
    match e
    case Insert(i, c) => s[..i] + [c] + s[i..]
    case Delete(i) => s[..i] + s[i + 1..]
    case Change(i, c) => s[..i] + [c] + s[i + 1..]
  }

  // The edits turn a into b, one after the other.
  ghost predicate Turns(a: string, es: seq<Edit>, b: string)
    decreases |es|
  {
    if es == [] then a == b else CanEdit(a, es[0]) && Turns(Edited(a, es[0]), es[1..], b)
  }

  // A character more at the end changes the distance by one at most.
  lemma {:induction false} OneMore(a: string, c: char, b: string)
    ensures Dist(a, b) <= Dist(a + [c], b) + 1 && Dist(a + [c], b) <= Dist(a, b) + 1
  {
    assert Front(a + [c]) == a;
    if a != [] && b != [] {
      OneMore(a, c, Front(b));
      DistSymmetric(a, b);
      DistSymmetric(a, Front(b));
      assert Dist(a, b) <= Dist(a, Front(b)) + 1;
    } else if b != [] {
      FromNothing(c, b);
    }
  }

  lemma {:induction false} FromNothing(c: char, b: string)
    ensures |b| <= Dist([c], b) + 1 && Dist([c], b) <= |b| + 1
  {
    if b != [] {
      FromNothing(c, Front(b));
      assert Front([c]) == [];
    }
  }

  // So does a character more anywhere, and another character in one place.
  lemma {:induction false} OneMoreInside(p: string, c: char, q: string, b: string)
    ensures Dist(p + q, b) <= Dist(p + [c] + q, b) + 1 && Dist(p + [c] + q, b) <= Dist(p + q, b) + 1
    decreases |q| + |b|
  {
    if q == [] {
      assert p + q == p && p + [c] + q == p + [c];
      OneMore(p, c, b);
    } else if b != [] {
      assert Front(p + q) == p + Front(q) && Front(p + [c] + q) == p + [c] + Front(q);
      assert Last(p + q) == Last(q) == Last(p + [c] + q);
      OneMoreInside(p, c, Front(q), b);
      OneMoreInside(p, c, q, Front(b));
      OneMoreInside(p, c, Front(q), Front(b));
    }
  }

  lemma {:induction false} OneChanged(p: string, c: char, d: char, q: string, b: string)
    ensures Dist(p + [c] + q, b) <= Dist(p + [d] + q, b) + 1
    decreases |q| + |b|
  {
    if q == [] {
      assert p + [c] + q == p + [c] && p + [d] + q == p + [d];
      assert Front(p + [c]) == p && Front(p + [d]) == p;
      if b != [] {
        OneChanged(p, c, d, q, Front(b));
      }
    } else if b != [] {
      assert Front(p + [c] + q) == p + [c] + Front(q) && Front(p + [d] + q) == p + [d] + Front(q);
      assert Last(p + [c] + q) == Last(q) == Last(p + [d] + q);
      OneChanged(p, c, d, Front(q), b);
      OneChanged(p, c, d, q, Front(b));
      OneChanged(p, c, d, Front(q), Front(b));
    }
  }

  lemma EditCostsOne(a: string, e: Edit, b: string)
    requires CanEdit(a, e)
    ensures Dist(a, b) <= Dist(Edited(a, e), b) + 1
  {
    match e
    case Insert(i, c) =>
      assert a == a[..i] + a[i..];
      OneMoreInside(a[..i], c, a[i..], b);
    case Delete(i) =>
      assert a == a[..i] + [a[i]] + a[i + 1..];
      OneMoreInside(a[..i], a[i], a[i + 1..], b);
    case Change(i, c) =>
      assert a == a[..i] + [a[i]] + a[i + 1..];
      OneChanged(a[..i], a[i], c, a[i + 1..], b);
  }

  lemma {:induction false} NoDistance(a: string)
    ensures Dist(a, a) == 0
  {
    if a != [] {
      NoDistance(Front(a));
    }
  }

  // No fewer edits turn a into b.
  lemma {:induction false} DistIsLeast(a: string, es: seq<Edit>, b: string)
    requires Turns(a, es, b)
    ensures Dist(a, b) <= |es|
    decreases |es|
  {
    if es == [] {
      NoDistance(a);
    } else {
      DistIsLeast(Edited(a, es[0]), es[1..], b);
      EditCostsOne(a, es[0], b);
    }
  }

  lemma {:induction false} TurnsThenTurns(a: string, es: seq<Edit>, b: string, fs: seq<Edit>, c: string)
    requires Turns(a, es, b) && Turns(b, fs, c)
    ensures Turns(a, es + fs, c)
    decreases |es|
  {
    hide Edited;
    if es == [] {
      assert es + fs == fs;
    } else {
      TurnsThenTurns(Edited(a, es[0]), es[1..], b, fs, c);
      assert (es + fs)[1..] == es[1..] + fs;
    }
  }

  // Edits of a do the same when more characters follow.
  lemma {:induction false} TurnsBefore(a: string, es: seq<Edit>, b: string, q: string)
    requires Turns(a, es, b)
    ensures Turns(a + q, es, b + q)
    decreases |es|
  {
    if es != [] {
      TurnsBefore(Edited(a, es[0]), es[1..], b, q);
      EditBefore(a, es[0], q);
    }
  }

  lemma EditBefore(a: string, e: Edit, q: string)
    requires CanEdit(a, e)
    ensures CanEdit(a + q, e) && Edited(a + q, e) == Edited(a, e) + q
  {
    assert (a + q)[..e.i] == a[..e.i];
    if e.Insert? {
      assert (a + q)[e.i..] == a[e.i..] + q;
    } else {
      assert (a + q)[e.i + 1..] == a[e.i + 1..] + q;
    }
  }

  lemma OneEdit(a: string, e: Edit, b: string)
    requires CanEdit(a, e) && Edited(a, e) == b
    ensures Turns(a, [e], b)
  {
    assert [e][1..] == [];
  }

  lemma EditThenTurns(a: string, e: Edit, b: string, es: seq<Edit>, c: string)
    requires CanEdit(a, e) && Edited(a, e) == b && Turns(b, es, c)
    ensures Turns(a, [e] + es, c)
  {
    assert ([e] + es)[1..] == es;
  }

  lemma TurnsThenEdit(a: string, es: seq<Edit>, b: string, e: Edit, c: string)
    requires Turns(a, es, b) && CanEdit(b, e) && Edited(b, e) == c
    ensures Turns(a, es + [e], c)
  {
    OneEdit(b, e, c);
    TurnsThenTurns(a, es, b, [e], c);
  }

  // As many edits as the distance turn a into b.
  lemma {:induction false} DistIsEnough(a: string, b: string) returns (es: seq<Edit>)
    ensures Turns(a, es, b) && |es| == Dist(a, b)
    decreases |a| + |b|
  {
    hide Turns, Edited;
    if a == [] && b == [] {
      es := [];
      NoEdits(a);
    } else if a == [] || (b != [] && Dist(a, b) == Dist(a, Front(b)) + 1) {
      es := DistIsEnough(a, Front(b));
      AppendsLast(b);
      TurnsThenEdit(a, es, Front(b), Insert(|b| - 1, Last(b)), b);
      es := es + [Insert(|b| - 1, Last(b))];
    } else if b == [] || Dist(a, b) == Dist(Front(a), b) + 1 {
      es := DistIsEnough(Front(a), b);
      DropsLast(a);
      EditThenTurns(a, Delete(|a| - 1), Front(a), es, b);
      es := [Delete(|a| - 1)] + es;
    } else {
      es := DistIsEnough(Front(a), Front(b));
      TurnsBefore(Front(a), es, Front(b), [Last(b)]);
      assert Front(b) + [Last(b)] == b && Front(a) + [Last(a)] == a;
      if Last(a) != Last(b) {
        ChangesLast(a, Last(b));
        EditThenTurns(a, Change(|a| - 1, Last(b)), Front(a) + [Last(b)], es, b);
        es := [Change(|a| - 1, Last(b))] + es;
      }
    }
  }

  lemma ToNothing(a: string)
    ensures Dist(a, []) == |a|
  {
  }

  lemma NoEdits(a: string)
    ensures Turns(a, [], a)
  {
  }

  lemma AppendsLast(b: string)
    requires b != []
    ensures Edited(Front(b), Insert(|b| - 1, Last(b))) == b
  {
  }

  lemma DropsLast(a: string)
    requires a != []
    ensures Edited(a, Delete(|a| - 1)) == Front(a)
  {
  }

  lemma ChangesLast(a: string, c: char)
    requires a != []
    ensures Edited(a, Change(|a| - 1, c)) == Front(a) + [c]
  {
  }

  // The distance is the least number of edits that turn a into b.
  lemma DistIsFewest(a: string, b: string)
    ensures exists es :: Turns(a, es, b) && |es| == Dist(a, b)
    ensures forall es :: Turns(a, es, b) ==> Dist(a, b) <= |es|
  {
    var fewest := DistIsEnough(a, b);
    forall es | Turns(a, es, b) ensures Dist(a, b) <= |es| {
      DistIsLeast(a, es, b);
    }
  }

  // levenshtein_distance: the least number of edits that turn a0 into b0.
  method LevenshteinDistance(a0: string, b0: string) returns (d: nat)
    ensures d == Dist(a0, b0)
    ensures (exists es :: Turns(a0, es, b0) && |es| == d) && forall es :: Turns(a0, es, b0) ==> d <= |es|
  {
    hide Turns, Dist;
    var a, b := a0, b0;
    var n, m := |a|, |b|;
    if n > m {
      a, b := b, a;
      n, m := m, n;
      DistSymmetric(a0, b0);
    }
    var current: seq<nat> := seq(n + 1, j => j);
    var i := 1;
    forall j | 0 <= j <= n ensures current[j] == Dist(a[..j], b[..0]) {
      ToNothing(a[..j]);
    }
    while i < m + 1
      invariant 1 <= i <= m + 1 && |current| == n + 1
      invariant forall j :: 0 <= j <= n ==> current[j] == Dist(a[..j], b[..i - 1])
    {
      current := NextRow(a, b, i, current);
      i := i + 1;
    }
    assert a[..n] == a && b[..m] == b;
    d := current[n];
    DistIsFewest(a0, b0);
  }

  lemma FirstEntry(a: string, b: string, i: nat)
    requires i <= |b|
    ensures Dist(a[..0], b[..i]) == i
  {
  }

  lemma {:induction false} DistByLast(a: string, b: string)
    requires a != [] && b != []
    ensures Dist(a, b) == Min(Min(Dist(a, Front(b)) + 1, Dist(Front(a), b) + 1),
                              Dist(Front(a), Front(b)) + if Last(a) == Last(b) then 0 else 1)
  {
    hide Min, Front, Last;
  }

  // An entry of the table by its three neighbours.
  lemma {:induction false} Entry(a: string, b: string, i: nat, j: nat)
    requires 1 <= i <= |b| && 1 <= j <= |a|
    ensures Dist(a[..j], b[..i]) == Min(Min(Dist(a[..j], b[..i - 1]) + 1, Dist(a[..j - 1], b[..i]) + 1),
                                        Dist(a[..j - 1], b[..i - 1]) + if a[j - 1] == b[i - 1] then 0 else 1)
  {
    hide Dist;
    DistByLast(a[..j], b[..i]);
    assert Front(a[..j]) == a[..j - 1] && Front(b[..i]) == b[..i - 1];
  }

  // The body of the outer loop: row i of the table from the one before.
  method NextRow(a: string, b: string, i: nat, previous: seq<nat>) returns (current: seq<nat>)
    requires 1 <= i <= |b| && |previous| == |a| + 1
    requires forall j :: 0 <= j <= |a| ==> previous[j] == Dist(a[..j], b[..i - 1])
    ensures |current| == |a| + 1 && forall j :: 0 <= j <= |a| ==> current[j] == Dist(a[..j], b[..i])
  {
    hide Dist, Front, Last;
    var n := |a|;
    current := [i] + seq(n, _ => 0);
    var j := 1;
    FirstEntry(a, b, i);
    while j < n + 1
      invariant 1 <= j <= n + 1 && |current| == n + 1
      invariant forall k :: 0 <= k < j ==> current[k] == Dist(a[..k], b[..i])
    {
      var add, delete := previous[j] + 1, current[j - 1] + 1;
      var change := previous[j - 1];
      if a[j - 1] != b[i - 1] {
        change := change + 1;
      }
      Entry(a, b, i, j);
      current := current[j := Min(Min(add, delete), change)];
      j := j + 1;
    }
  }
}
