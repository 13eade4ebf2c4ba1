/** Searching and walking the red-black tree of malloclab/tree.h, and how high it is. */
module RedBlackWalk {
  import opened Comparisons
  import opened TreeShape
  import opened RedBlackTree
  import opened Powers

  // RB_FIND: the node in the place of elm, if there is one.
  method Find(head: Head, elm: Node, cmp: Comparison) returns (r: Node?)
    requires Ordering(cmp) && Valid(head, cmp)
    ensures r != null ==> r in Nodes(head.tree) && cmp(elm.key, r.key) == 0
    ensures r == null ==> forall n :: n in Nodes(head.tree) ==> cmp(elm.key, n.key) != 0
  {
    hide At, Sought, Sorted, Ordering, RedBlack, Nodes, InOrder;
    ghost var s, ns := InOrder(head.tree), Nodes(head.tree);
    ghost var c, t := Top, head.tree;
    SoughtTop(cmp, elm.key, t);
    var tmp := head.root;
    Look(c, t, tmp, head.root, ns, s);
    while tmp != null
      invariant At(c, t, tmp, head.root, ns, s) && Sought(cmp, elm.key, c, t) && tmp == RootOf(t)
      decreases t
    {
      Look(c, t, tmp, head.root, ns, s);
      var comp := cmp(elm.key, tmp.key);
      if comp < 0 {
        Descend(cmp, elm.key, c, t, tmp, head.root, ns, s, true);
        c, t := Frame(c, true, t.n, t.red, t.r), t.l;
        tmp := tmp.left;
      } else if comp > 0 {
        Descend(cmp, elm.key, c, t, tmp, head.root, ns, s, false);
        c, t := Frame(c, false, t.n, t.red, t.l), t.r;
        tmp := tmp.right;
      } else {
        return tmp;
      }
    }
    NewOrder(cmp, elm, c, ns, s, head.root);
    return null;
  }

  // r is the first of s that is not below the key, null if all are.
  ghost predicate LeastNotBelow(cmp: Comparison, s: seq<Node>, key: int, r: Node?) {
    if r == null then AllBelow(cmp, s, key)
    else exists k :: 0 <= k < |s| && s[k] == r && cmp(key, r.key) <= 0 && AllBelow(cmp, s[..k], key)
  }

  ghost function First(s: seq<Node>): Node? { if s == [] then null else s[0] }

  // RB_NFIND
  method NFind(head: Head, elm: Node, cmp: Comparison) returns (res: Node?)
    requires Ordering(cmp) && Valid(head, cmp)
    ensures LeastNotBelow(cmp, InOrder(head.tree), elm.key, res)
  {
    hide At, Sought, Sorted, Ordering, RedBlack, Nodes, InOrder, LeastNotBelow;
    ghost var s, ns := InOrder(head.tree), Nodes(head.tree);
    ghost var c, t := Top, head.tree;
    SoughtTop(cmp, elm.key, t);
    var tmp := head.root;
    res := null;
    Look(c, t, tmp, head.root, ns, s);
    while tmp != null
      invariant At(c, t, tmp, head.root, ns, s) && Sought(cmp, elm.key, c, t) && tmp == RootOf(t)
      invariant res == First(After(c))
      decreases t
    {
      Look(c, t, tmp, head.root, ns, s);
      var comp := cmp(elm.key, tmp.key);
      if comp < 0 {
        res := tmp;
        Descend(cmp, elm.key, c, t, tmp, head.root, ns, s, true);
        c, t := Frame(c, true, t.n, t.red, t.r), t.l;
        tmp := tmp.left;
      } else if comp > 0 {
        Descend(cmp, elm.key, c, t, tmp, head.root, ns, s, false);
        c, t := Frame(c, false, t.n, t.red, t.l), t.r;
        tmp := tmp.right;
      } else {
        FoundLeast(cmp, elm.key, c, t, tmp, head.root, ns, s);
        return tmp;
      }
    }
    NotFoundLeast(cmp, elm.key, c, head.root, ns, s);
  }

  lemma FoundLeast(cmp: Comparison, key: int, c: Context, t: Tree, p: Node?, root: Node?, ns: set<Node>, s: seq<Node>)
    requires At(c, t, p, root, ns, s) && Ordering(cmp) && Sorted(cmp, s) && Sought(cmp, key, c, t) && t.Fork?
    requires cmp(key, t.n.key) == 0
    ensures LeastNotBelow(cmp, s, key, t.n)
  {
    var b, l := Before(c), InOrder(t.l);
    var k := |b| + |l|;
    OrderIs(c, t, p, root, ns, s);
    assert s == b + (l + [t.n] + InOrder(t.r)) + After(c);
    hide At, Linked, Around, InOrder, Before, After, Balanced, NoRedRed, ContextOk;
    assert s[k] == t.n;
    forall n | n in s[..k] ensures cmp(key, n.key) > 0 {
      var j :| 0 <= j < k && s[j] == n;
      if j < |b| {
        assert n in b;
      } else {
        Less(cmp, n.key, t.n.key, key);
      }
    }
  }

  lemma NotFoundLeast(cmp: Comparison, key: int, c: Context, root: Node?, ns: set<Node>, s: seq<Node>)
    requires At(c, Leaf, null, root, ns, s) && Sought(cmp, key, c, Leaf)
    ensures LeastNotBelow(cmp, s, key, First(After(c)))
  {
    var b, a := Before(c), After(c);
    OrderIs(c, Leaf, null, root, ns, s);
    assert s == b + a;
    hide At, Linked, Around, InOrder, Before, After, Balanced, NoRedRed, ContextOk;
    if a != [] {
      assert s[|b|] == a[0] && s[..|b|] == b;
      assert a[0] in a;
    }
  }

  // The tree is linked.
  ghost predicate Whole(head: Head)
    reads head, Nodes(head.tree)
  {
    At(Top, head.tree, head.root, head.root, Nodes(head.tree), InOrder(head.tree))
  }

  // The tree is linked, and elm is in it.
  ghost predicate InTree(head: Head, elm: Node)
    reads head, Nodes(head.tree)
  {
    Whole(head) && elm in Nodes(head.tree)
  }

  // r comes right after elm in s, or elm is the last and r is null.
  ghost predicate Follows(s: seq<Node>, elm: Node, r: Node?) {
    exists k :: 0 <= k < |s| && s[k] == elm && r == if k + 1 < |s| then s[k + 1] else null
  }

  // RB_NEXT
  method Next(head: Head, elm: Node) returns (r: Node?)
    requires InTree(head, elm)
    ensures Follows(InOrder(head.tree), elm, r)
  {
    hide At, Nodes, InOrder, Before, After, Follows;
    ghost var s, ns := InOrder(head.tree), Nodes(head.tree);
    ghost var c, t := Place(Top, head.tree, head.root, head.root, ns, s, elm);
    Look(c, t, elm, head.root, ns, s);
    NextIs(c, t, elm, head.root, ns, s);
    if elm.right != null {
      Down(c, t, elm, head.root, ns, s, false);
      r := Leftmost(head, elm.right, Frame(c, false, elm, t.red, t.l), t.r, ns, s);
    } else {
      r := NextAbove(head, elm, c, t, ns, s);
    }
  }

  lemma {:induction false} Place(c: Context, t: Tree, p: Node?, root: Node?, ns: set<Node>, s: seq<Node>, elm: Node)
    returns (c': Context, t': Tree)
    requires At(c, t, p, root, ns, s) && elm in Nodes(t)
    ensures At(c', t', elm, root, ns, s) && t'.Fork?
    decreases t
  {
    hide At;
    Look(c, t, p, root, ns, s);
    if t.n == elm {
      return c, t;
    }
    var left := elm in Nodes(t.l);
    Down(c, t, p, root, ns, s, left);
    c', t' := Place(Frame(c, left, t.n, t.red, Arm(t, !left)), Arm(t, left), Link(t.n, left), root, ns, s, elm);
  }

  // What follows the root of t in s.
  lemma NextIs(c: Context, t: Tree, p: Node?, root: Node?, ns: set<Node>, s: seq<Node>)
    requires At(c, t, p, root, ns, s) && t.Fork?
    ensures t.r.Fork? ==> InOrder(t.r) != [] && Follows(s, t.n, InOrder(t.r)[0])
    ensures t.r.Leaf? ==> Follows(s, t.n, First(After(c)))
  {
    var b, l, r, a := Before(c), InOrder(t.l), InOrder(t.r), After(c);
    OrderIs(c, t, p, root, ns, s);
    assert s == b + (l + [t.n] + r) + a;
    var k := |b| + |l|;
    assert s[k] == t.n;
    if r != [] {
      assert s[k + 1] == r[0];
    } else if a != [] {
      assert s[k + 1] == a[0];
    }
  }

  method Leftmost(head: Head, elm: Node, ghost c0: Context, ghost t0: Tree, ghost ns: set<Node>, ghost s: seq<Node>)
    returns (r: Node)
    requires At(c0, t0, elm, head.root, ns, s) && t0.Fork?
    ensures InOrder(t0) != [] && r == InOrder(t0)[0]
  {
    hide At;
    ghost var c, t := c0, t0;
    r := elm;
    Look(c, t, r, head.root, ns, s);
    while r.left != null
      invariant At(c, t, r, head.root, ns, s) && t.Fork? && r == t.n && r.left == RootOf(t.l)
      invariant InOrder(t0) != [] && InOrder(t) != [] && InOrder(t0)[0] == InOrder(t)[0]
      decreases t
    {
      Down(c, t, r, head.root, ns, s, true);
      c, t := Frame(c, true, t.n, t.red, t.r), t.l;
      r := r.left;
      Look(c, t, r, head.root, ns, s);
    }
  }

  method NextAbove(head: Head, elm0: Node, ghost c0: Context, ghost t0: Tree, ghost ns: set<Node>, ghost s: seq<Node>)
    returns (r: Node?)
    requires At(c0, t0, elm0, head.root, ns, s) && t0.Fork?
    ensures r == First(After(c0))
  {
    hide At;
    ghost var c, t := c0, t0;
    var elm := elm0;
    Look(c, t, elm, head.root, ns, s);
    if elm.parent != null && elm == elm.parent.left {
      return elm.parent;
    }
    while elm.parent != null && elm == elm.parent.right
      invariant At(c, t, elm, head.root, ns, s) && t.Fork? && elm == t.n && elm.parent == ParentOf(c)
      invariant After(c) == After(c0)
      invariant c.Frame? ==> Link(c.n, c.onLeft) == elm && Link(c.n, !c.onLeft) != elm
      decreases Depth(c)
    {
      Up(c, t, elm, head.root, ns, s);
      elm := elm.parent;
      c, t := c.up, ForkAt(c.onLeft, t, c.n, c.red, c.sib);
      Look(c, t, elm, head.root, ns, s);
    }
    return elm.parent;
  }

  // RB_PREV
  method Prev(head: Head, elm: Node) returns (r: Node?)
    requires InTree(head, elm)
    ensures Precedes(InOrder(head.tree), elm, r)
  {
    hide At, Nodes, InOrder, Before, After, Precedes;
    ghost var s, ns := InOrder(head.tree), Nodes(head.tree);
    ghost var c, t := Place(Top, head.tree, head.root, head.root, ns, s, elm);
    Look(c, t, elm, head.root, ns, s);
    PrevIs(c, t, elm, head.root, ns, s);
    if elm.left != null {
      Down(c, t, elm, head.root, ns, s, true);
      r := Rightmost(head, elm.left, Frame(c, true, elm, t.red, t.r), t.l, ns, s);
    } else {
      r := PrevAbove(head, elm, c, t, ns, s);
    }
  }

  ghost predicate Precedes(s: seq<Node>, elm: Node, r: Node?) {
    exists k :: 0 <= k < |s| && s[k] == elm && r == if k > 0 then s[k - 1] else null
  }

  ghost function Last(s: seq<Node>): Node? { if s == [] then null else s[|s| - 1] }

  lemma PrevIs(c: Context, t: Tree, p: Node?, root: Node?, ns: set<Node>, s: seq<Node>)
    requires At(c, t, p, root, ns, s) && t.Fork?
    ensures t.l.Fork? ==> InOrder(t.l) != [] && Precedes(s, t.n, Last(InOrder(t.l)))
    ensures t.l.Leaf? ==> Precedes(s, t.n, Last(Before(c)))
  {
    var b, l, r, a := Before(c), InOrder(t.l), InOrder(t.r), After(c);
    OrderIs(c, t, p, root, ns, s);
    hide Precedes, Last, Before, After;
    assert s == b + (l + [t.n] + r) + a;
    PrecedesWithin(b, l, t.n, r, a);
  }

  lemma PrecedesWithin(b: seq<Node>, l: seq<Node>, n: Node, r: seq<Node>, a: seq<Node>)
    ensures Precedes(b + (l + [n] + r) + a, n, if l != [] then Last(l) else Last(b))
  {
    hide Precedes;
    var s, k, p := b + (l + [n] + r) + a, |b| + |l|, if l != [] then Last(l) else Last(b);
    assert 0 <= k < |s| && s[k] == n;
    if l != [] {
      assert s[k - 1] == l[|l| - 1];
    } else if b != [] {
      assert s[k - 1] == b[|b| - 1];
    }
    PrecedesHere(s, k, n, p);
  }

  lemma PrecedesHere(s: seq<Node>, k: nat, elm: Node, r: Node?)
    requires k < |s| && s[k] == elm && r == if k > 0 then s[k - 1] else null
    ensures Precedes(s, elm, r)
  {
  }

  method Rightmost(head: Head, elm: Node, ghost c0: Context, ghost t0: Tree, ghost ns: set<Node>, ghost s: seq<Node>)
    returns (r: Node)
    requires At(c0, t0, elm, head.root, ns, s) && t0.Fork?
    ensures r == Last(InOrder(t0))
  {
    hide At;
    ghost var c, t := c0, t0;
    r := elm;
    Look(c, t, r, head.root, ns, s);
    while r.right != null
      invariant At(c, t, r, head.root, ns, s) && t.Fork? && r == t.n && r.right == RootOf(t.r)
      invariant InOrder(t) != [] && Last(InOrder(t0)) == Last(InOrder(t))
      decreases t
    {
      Down(c, t, r, head.root, ns, s, false);
      c, t := Frame(c, false, t.n, t.red, t.l), t.r;
      r := r.right;
      Look(c, t, r, head.root, ns, s);
    }
  }

  method PrevAbove(head: Head, elm0: Node, ghost c0: Context, ghost t0: Tree, ghost ns: set<Node>, ghost s: seq<Node>)
    returns (r: Node?)
    requires At(c0, t0, elm0, head.root, ns, s) && t0.Fork?
    ensures r == Last(Before(c0))
  {
    hide At;
    ghost var c, t := c0, t0;
    var elm := elm0;
    Look(c, t, elm, head.root, ns, s);
    if elm.parent != null && elm == elm.parent.right {
      return elm.parent;
    }
    while elm.parent != null && elm == elm.parent.left
      invariant At(c, t, elm, head.root, ns, s) && t.Fork? && elm == t.n && elm.parent == ParentOf(c)
      invariant Before(c) == Before(c0)
      invariant c.Frame? ==> Link(c.n, c.onLeft) == elm && Link(c.n, !c.onLeft) != elm
      decreases Depth(c)
    {
      Up(c, t, elm, head.root, ns, s);
      elm := elm.parent;
      c, t := c.up, ForkAt(c.onLeft, t, c.n, c.red, c.sib);
      Look(c, t, elm, head.root, ns, s);
    }
    return elm.parent;
  }

  // RB_MINMAX
  method MinMax(head: Head, val: int) returns (parent: Node?)
    requires Whole(head)
    ensures parent == if val < 0 then First(InOrder(head.tree)) else Last(InOrder(head.tree))
  {
    hide At, Nodes;
    ghost var s, ns := InOrder(head.tree), Nodes(head.tree);
    ghost var c, t := Top, head.tree;
    var tmp := head.root;
    parent := null;
    Look(c, t, tmp, head.root, ns, s);
    while tmp != null
      invariant At(c, t, tmp, head.root, ns, s) && tmp == RootOf(t) && parent == ParentOf(c)
      invariant if val < 0 then First(s) == First(InOrder(t) + if parent == null then [] else [parent])
                else Last(s) == Last((if parent == null then [] else [parent]) + InOrder(t))
      decreases t
    {
      Look(c, t, tmp, head.root, ns, s);
      parent := tmp;
      Down(c, t, tmp, head.root, ns, s, val < 0);
      if val < 0 {
        c, t := Frame(c, true, t.n, t.red, t.r), t.l;
        tmp := tmp.left;
      } else {
        c, t := Frame(c, false, t.n, t.red, t.l), t.r;
        tmp := tmp.right;
      }
      Look(c, t, tmp, head.root, ns, s);
    }
  }

  // A loop from the least node on by RB_NEXT goes through the nodes in order, and ends.
  method ForEach(head: Head) returns (visited: seq<Node>)
    requires Whole(head)
    ensures visited == InOrder(head.tree)
  {
    hide Whole;
    ghost var t, s := head.tree, InOrder(head.tree);
    LinkedWhole(head);
    NoDuplicates(head.tree, head.root, null);
    Members(head.tree);
    visited := [];
    assert allocated(Nodes(t));
    var x := MinMax(head, -1);
    while x != null
      invariant Whole(head) && head.tree == t
      invariant |visited| <= |s| && visited == s[..|visited|]
      invariant x == if |visited| < |s| then s[|visited|] else null
      decreases |s| - |visited|
    {
      visited := visited + [x];
      assert allocated(Nodes(t));
      x := Next(head, x);
    }
  }

  lemma LinkedWhole(head: Head)
    requires Whole(head)
    ensures Linked(head.tree, head.root, null)
  {
  }

  lemma {:induction false} Members(t: Tree)
    ensures forall i :: 0 <= i < |InOrder(t)| ==> InOrder(t)[i] in Nodes(t)
  {
    if t.Fork? {
      Members(t.l);
      Members(t.r);
    }
  }

  ghost predicate Different(s: seq<Node>) { forall i, j :: 0 <= i < j < |s| ==> s[i] != s[j] }

  lemma {:induction false} NoDuplicates(t: Tree, p: Node?, parent: Node?)
    requires Linked(t, p, parent)
    ensures Different(InOrder(t))
  {
    if t.Fork? {
      NoDuplicates(t.l, p.left, p);
      NoDuplicates(t.r, p.right, p);
      Members(t.l);
      Members(t.r);
      DifferentParts(InOrder(t.l), t.n, InOrder(t.r), Nodes(t.l), Nodes(t.r));
    }
  }

  lemma DifferentParts(l: seq<Node>, n: Node, r: seq<Node>, ls: set<Node>, rs: set<Node>)
    requires Different(l) && Different(r) && n !in ls && n !in rs && Apart(ls, rs)
    requires forall i :: 0 <= i < |l| ==> l[i] in ls
    requires forall i :: 0 <= i < |r| ==> r[i] in rs
    ensures Different(l + [n] + r)
  {
  }

  // ----- how high the tree is -----

  ghost function Levels(t: Tree): nat {
    if t.Leaf? then 0 else 1 + if Levels(t.l) > Levels(t.r) then Levels(t.l) else Levels(t.r)
  }

  lemma {:induction false} LevelsBounded(t: Tree)
    requires Balanced(t) && NoRedRed(t)
    ensures Levels(t) <= 2 * BlackHeight(t) + if IsRed(t) then 1 else 0
    ensures Pow2(BlackHeight(t)) <= |InOrder(t)| + 1
  {
    if t.Fork? {
      ArmsOk(t);
      assert Arm(t, true) == t.l && Arm(t, false) == t.r;
      LevelsBounded(t.l);
      LevelsBounded(t.r);
    }
  }

  // A red-black tree of n nodes has at most 2 lg(n + 1) levels.
  lemma LevelsLogarithmic(t: Tree)
    requires RedBlack(t)
    ensures Pow2(Levels(t)) <= (|InOrder(t)| + 1) * (|InOrder(t)| + 1)
  {
    LevelsBounded(t);
    var b, n := Pow2(BlackHeight(t)), |InOrder(t)| + 1;
    Pow2Monotone(Levels(t), 2 * BlackHeight(t));
    Pow2Sum(BlackHeight(t), BlackHeight(t));
    Squares(b, n);
  }

  lemma Squares(b: nat, n: nat)
    requires b <= n
    ensures b * b <= n * n
  {
    assert b * b <= b * n <= n * n;
  }
}
