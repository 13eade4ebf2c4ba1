/** Runs of calls on a splay tree of malloclab/tree.h: what they find, and what they cost together. */
module SplayRuns {
  import opened Comparisons
  import opened SplayShape
  import opened SplayBalance
  import opened SplayTree

  datatype Op = FindKey(key: int) | InsertKey(key: int) | RemoveKey(key: int)

  // Some key of ks is in the place of the given one.
  ghost predicate Has(cmp: Comparison, ks: set<int>, key: int) { exists k :: k in ks && cmp(key, k) == 0 }

  // The keys after a call, and after several.
  ghost function After(cmp: Comparison, ks: set<int>, op: Op): set<int> {
    match op
    case FindKey(_) => ks
    case InsertKey(key) => if Has(cmp, ks, key) then ks else ks + {key}
    case RemoveKey(key) => set k | k in ks && cmp(key, k) != 0
  }

  ghost function AfterAll(cmp: Comparison, ks: set<int>, ops: seq<Op>): set<int> {
    if ops == [] then ks else After(cmp, AfterAll(cmp, ks, ops[..|ops| - 1]), ops[|ops| - 1])
  }

  function Inserts(ops: seq<Op>): nat {
    if ops == [] then 0 else Inserts(ops[..|ops| - 1]) + if ops[|ops| - 1].InsertKey? then 1 else 0
  }

  ghost function Keys(s: seq<Node>): set<int> { set n | n in s :: n.key }

  // One call, with a node of its own for the key.
  method Do(head: Head, op: Op, cmp: Comparison) returns (found: bool, ghost turns: nat)
    requires Ordering(cmp) && Valid(head, cmp)
    modifies head, Nodes(head.tree)
    ensures Valid(head, cmp) && fresh(Nodes(head.tree) - old(Nodes(head.tree)))
    ensures found <==> Has(cmp, old(Keys(InOrder(head.tree))), op.key)
    ensures Keys(InOrder(head.tree)) == After(cmp, old(Keys(InOrder(head.tree))), op)
    ensures Size(head.tree) <= old(Size(head.tree)) + if op.InsertKey? then 1 else 0
    ensures turns + 2 * Potential(head.tree) <= 2 * old(Potential(head.tree)) + 20 * Lg(old(Size(head.tree)) + 1)
  {
    hide Valid, Ordering, Nodes, InOrder, Potential, Size, Lg, SplayTree.Inserts, Removes, Deletes, Has, Keys, After;
    ghost var ns, s, key := Nodes(head.tree), InOrder(head.tree), op.key;
    assert allocated(ns);
    InOrderOf(head, cmp);
    var elm := new Node(op.key);
    match op {
      case FindKey(_) =>
        var r;
        r, turns := SplayTree.Find(head, elm, cmp);
        found := r != null;
        FindsOrNot(cmp, key, s, r);
        AfterFind(cmp, Keys(s), key);
      case InsertKey(_) =>
        var r;
        r, turns := SplayTree.Insert(head, elm, cmp);
        found := r != null;
        FindsOrNot(cmp, key, s, r);
        if r == null {
          NowIn(s, elm, InOrder(head.tree));
        }
        AfterInsert(cmp, Keys(s), key);
      case RemoveKey(_) =>
        var r;
        ghost var x;
        r, x, turns := SplayTree.Remove(head, elm, cmp);
        found := r != null;
        if r != null {
          DeletedThere(cmp, key, s, x, InOrder(head.tree));
        }
        FindsOrNot(cmp, key, s, if r == null then null else x);
        if r != null {
          NotInNow(cmp, key, s, x, InOrder(head.tree));
        } else {
          NothingOut(cmp, Keys(s), key);
        }
    }
    InOrderOf(head, cmp);
  }

  lemma InOrderOf(head: Head, cmp: Comparison)
    requires Valid(head, cmp)
    ensures Sorted(cmp, InOrder(head.tree)) && Size(head.tree) == |InOrder(head.tree)|
  {
    SizeIsLength(head.tree);
  }

  lemma {:induction false} SizeIsLength(t: Tree)
    ensures Size(t) == |InOrder(t)|
  {
    if t.Fork? {
      SizeIsLength(t.l);
      SizeIsLength(t.r);
    }
  }

  lemma FindsOrNot(cmp: Comparison, key: int, s: seq<Node>, r: Node?)
    requires r != null ==> r in s && cmp(key, r.key) == 0
    requires r == null ==> forall n :: n in s ==> cmp(key, n.key) != 0
    ensures r != null <==> Has(cmp, Keys(s), key)
  {
    if r != null {
      assert r.key in Keys(s);
    }
  }

  lemma AfterFind(cmp: Comparison, ks: set<int>, key: int)
    ensures After(cmp, ks, FindKey(key)) == ks
  {
  }

  lemma AfterInsert(cmp: Comparison, ks: set<int>, key: int)
    ensures After(cmp, ks, InsertKey(key)) == if Has(cmp, ks, key) then ks else ks + {key}
  {
  }

  lemma NowIn(s: seq<Node>, n: Node, s': seq<Node>)
    requires SplayTree.Inserts(s, n, s')
    ensures Keys(s') == Keys(s) + {n.key} && |s'| == |s| + 1
  {
    var k :| 0 <= k <= |s| && s' == s[..k] + [n] + s[k..];
    forall m ensures m in s' <==> m in s || m == n {
      assert s == s[..k] + s[k..];
    }
  }

  lemma DeletedThere(cmp: Comparison, key: int, s: seq<Node>, x: Node, s': seq<Node>)
    requires Deletes(cmp, key, s, x, s')
    ensures x in s && cmp(key, x.key) == 0
  {
  }

  lemma NotInNow(cmp: Comparison, key: int, s: seq<Node>, x: Node, s': seq<Node>)
    requires Ordering(cmp) && Sorted(cmp, s) && Deletes(cmp, key, s, x, s')
    ensures Keys(s') == After(cmp, Keys(s), RemoveKey(key)) && |s'| == |s| - 1
  {
    hide Ordering, Sorted, Keys, After;
    var k :| 0 <= k < |s| && s[k] == x && s' == s[..k] + s[k + 1..];
    forall j | 0 <= j < |s| ensures cmp(key, s[j].key) == 0 <==> j == k {
      OnlyOne(cmp, key, s, k, j);
    }
    forall j | 0 <= j < |s| && cmp(key, s[j].key) != 0 ensures s[j] in s' {
      StillIn(s, k, s', j);
    }
    forall n | n in s' ensures n in s && cmp(key, n.key) != 0 {
      var i :| 0 <= i < |s'| && s'[i] == n;
      var j := WasIn(s, k, s', i);
    }
    KeysLeft(cmp, key, s, s');
  }

  lemma StillIn(s: seq<Node>, k: nat, s': seq<Node>, j: nat)
    requires k < |s| && s' == s[..k] + s[k + 1..] && j < |s| && j != k
    ensures s[j] in s'
  {
    assert s'[if j < k then j else j - 1] == s[j];
  }

  lemma WasIn(s: seq<Node>, k: nat, s': seq<Node>, i: nat) returns (j: nat)
    requires k < |s| && s' == s[..k] + s[k + 1..] && i < |s'|
    ensures j < |s| && j != k && s'[i] == s[j]
  {
    j := if i < k then i else i + 1;
  }

  lemma KeysLeft(cmp: Comparison, key: int, s: seq<Node>, s': seq<Node>)
    requires forall j :: 0 <= j < |s| && cmp(key, s[j].key) != 0 ==> s[j] in s'
    requires forall n :: n in s' ==> n in s && cmp(key, n.key) != 0
    ensures Keys(s') == After(cmp, Keys(s), RemoveKey(key))
  {
    var left := After(cmp, Keys(s), RemoveKey(key));
    forall k | k in left ensures k in Keys(s') {
      var n :| n in s && n.key == k;
      var j :| 0 <= j < |s| && s[j] == n;
    }
    forall k | k in Keys(s') ensures k in left {
      var n :| n in s' && n.key == k;
    }
  }

  // In a sorted sequence one node at most is in the place of a key.
  lemma OnlyOne(cmp: Comparison, key: int, s: seq<Node>, k: nat, j: nat)
    requires Ordering(cmp) && Sorted(cmp, s) && k < |s| && j < |s| && cmp(key, s[k].key) == 0
    ensures cmp(key, s[j].key) == 0 <==> j == k
  {
    if j > k {
      Less(cmp, key, s[k].key, s[j].key);
    } else if j < k {
      Less(cmp, s[j].key, s[k].key, key);
    }
  }

  lemma NothingOut(cmp: Comparison, ks: set<int>, key: int)
    requires !Has(cmp, ks, key)
    ensures After(cmp, ks, RemoveKey(key)) == ks
  {
    forall k | k in ks ensures k in After(cmp, ks, RemoveKey(key)) {
    }
  }

  // Any run of calls finds what it should, and takes no more turns than this: the potential there is at the start
  // pays for what the calls themselves do not.
  method Run(head: Head, ops: seq<Op>, cmp: Comparison) returns (found: seq<bool>, ghost turns: nat)
    requires Ordering(cmp) && Valid(head, cmp)
    modifies head, Nodes(head.tree)
    ensures Valid(head, cmp)
    ensures Keys(InOrder(head.tree)) == AfterAll(cmp, old(Keys(InOrder(head.tree))), ops)
    ensures |found| == |ops| && forall i :: 0 <= i < |ops| ==>
      (found[i] <==> Has(cmp, AfterAll(cmp, old(Keys(InOrder(head.tree))), ops[..i]), ops[i].key))
    ensures turns + 2 * Potential(head.tree)
      <= 2 * old(Potential(head.tree)) + 20 * |ops| * Lg(old(Size(head.tree)) + Inserts(ops) + 1)
    ensures
      var n := old(Size(head.tree));
      turns <= 20 * |ops| * Lg(n + Inserts(ops) + 1) + 2 * n * Lg(n)
  {
    hide Valid, Ordering, Nodes, InOrder, Potential, Size, Lg, Has, Keys, After, AfterAll, Inserts;
    ghost var size, ks, lg := Size(head.tree), Keys(InOrder(head.tree)), Lg(Size(head.tree) + Inserts(ops) + 1);
    found, turns := [], 0;
    PotentialBound(head.tree, size);
    Twice(size, Lg(size));
    Nothing(cmp, ks);
    assert ops[..0] == [];
    var i := 0;
    while i < |ops|
      invariant 0 <= i <= |ops| && |found| == i && Valid(head, cmp)
      invariant forall x :: x in Nodes(head.tree) ==> x in old(Nodes(head.tree)) || fresh(x)
      invariant Keys(InOrder(head.tree)) == AfterAll(cmp, ks, ops[..i])
      invariant forall j :: 0 <= j < i ==> (found[j] <==> Has(cmp, AfterAll(cmp, ks, ops[..j]), ops[j].key))
      invariant Size(head.tree) <= size + Inserts(ops[..i])
      invariant turns + 2 * Potential(head.tree) <= 2 * old(Potential(head.tree)) + 20 * i * lg
    {
      OneMore(cmp, ks, ops, i);
      InsertsUpTo(ops, i);
      LgMonotone(Size(head.tree) + 1, size + Inserts(ops) + 1);
      Times(i, lg);
      var f;
      ghost var n, ns := 0, Nodes(head.tree);
      label Before:
      f, n := Do(head, ops[i], cmp);
      forall x | x in Nodes(head.tree) && x !in ns ensures fresh(x) {
        assert x in Nodes(head.tree) - ns;
        assert fresh@Before(x);
      }
      found, turns := found + [f], turns + n;
      i := i + 1;
    }
    assert ops[..i] == ops;
  }

  lemma Twice(n: nat, k: nat)
    ensures 2 * n * k == 2 * (n * k)
  {
  }

  lemma Times(i: nat, k: nat)
    ensures 20 * (i + 1) * k == 20 * i * k + 20 * k
  {
  }

  lemma Nothing(cmp: Comparison, ks: set<int>)
    ensures AfterAll(cmp, ks, []) == ks && Inserts([]) == 0
  {
  }

  lemma OneMore(cmp: Comparison, ks: set<int>, ops: seq<Op>, i: nat)
    requires i < |ops|
    ensures AfterAll(cmp, ks, ops[..i + 1]) == After(cmp, AfterAll(cmp, ks, ops[..i]), ops[i])
    ensures Inserts(ops[..i + 1]) == Inserts(ops[..i]) + if ops[i].InsertKey? then 1 else 0
  {
    assert ops[..i + 1][..i] == ops[..i];
  }

  lemma {:induction false} InsertsUpTo(ops: seq<Op>, i: nat)
    requires i <= |ops|
    ensures Inserts(ops[..i]) <= Inserts(ops)
    decreases |ops| - i
  {
    if i < |ops| {
      InsertsUpTo(ops, i + 1);
      assert ops[..i + 1][..i] == ops[..i];
    } else {
      assert ops[..i] == ops;
    }
  }

  // The Balance Theorem: on an empty tree, a run of m calls, n of them inserts, takes at most 20 m lg (n + 1) turns.
  method BalanceTheorem(ops: seq<Op>, cmp: Comparison) returns (found: seq<bool>, ghost turns: nat)
    requires Ordering(cmp)
    ensures |found| == |ops| && forall i :: 0 <= i < |ops| ==>
      (found[i] <==> Has(cmp, AfterAll(cmp, {}, ops[..i]), ops[i].key))
    ensures turns <= 20 * |ops| * Lg(Inserts(ops) + 1)
  {
    var head := new Head();
    Empty(head, cmp);
    found, turns := Run(head, ops, cmp);
  }

  lemma Empty(head: Head, cmp: Comparison)
    requires head.root == null && head.tree == Leaf
    ensures Valid(head, cmp) && Keys(InOrder(head.tree)) == {} && Size(head.tree) == 0 && Potential(head.tree) == 0
  {
  }
}
