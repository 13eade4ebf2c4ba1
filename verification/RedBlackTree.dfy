/** The red-black tree of malloclab/tree.h. */
module RedBlackTree {
  import opened Comparisons
  import opened TreeShape

  ghost predicate IsRed(t: Tree) { t.Fork? && t.red }

  // The black nodes on the way to the leftmost leaf.
  ghost function BlackHeight(t: Tree): nat {
    if t.Leaf? then 0 else BlackHeight(t.l) + if t.red then 0 else 1
  }

  // All ways to leaves have as many black nodes.
  ghost predicate Balanced(t: Tree) {
    t.Fork? ==> BlackHeight(t.l) == BlackHeight(t.r) && Balanced(t.l) && Balanced(t.r)
  }

  // No red node has a red child.
  ghost predicate NoRedRed(t: Tree) {
    t.Fork? ==> (t.red ==> !IsRed(t.l) && !IsRed(t.r)) && NoRedRed(t.l) && NoRedRed(t.r)
  }

  ghost predicate RedBlack(t: Tree) { Balanced(t) && NoRedRed(t) && !IsRed(t) }

  // Around a hole for a tree of black height h, c is as it should be.
  ghost predicate ContextOk(c: Context, h: nat) {
    c.Frame? ==>
      && Balanced(c.sib) && NoRedRed(c.sib) && BlackHeight(c.sib) == h
      && (c.red ==> !IsRed(c.sib) && c.up.Frame? && !c.up.red)
      && ContextOk(c.up, h + if c.red then 0 else 1)
  }

  lemma {:induction false} PlugOk(c: Context, t: Tree)
    requires Balanced(t) && NoRedRed(t) && ContextOk(c, BlackHeight(t))
    requires IsRed(t) ==> c.Frame? && !c.red
    ensures RedBlack(Plug(c, t))
  {
    if c.Frame? {
      PlugOk(c.up, ForkAt(c.onLeft, t, c.n, c.red, c.sib));
    }
  }

  // ----- insertion -----

  // t is red, and nothing is wrong but that its parent in c may be red too.
  ghost predicate Inserted(c: Context, t: Tree) {
    IsRed(t) && Balanced(t) && NoRedRed(t) && ContextOk(c, BlackHeight(t))
  }

  // RB_SET_BLACKRED where the black node is a child of the red one.
  method SetBlackRed(black: Node, red: Node, ghost c: Context, ghost t: Tree, ghost root: Node?, ghost ns: set<Node>,
                     ghost s: seq<Node>)
    requires c.Frame? && c.n == red && t.Fork? && At(c, t, black, root, ns, s)
    modifies black`red, red`red
    ensures At(c.(red := true), t.(red := false), black, root, ns, s)
  {
    hide At;
    Look(c, t, black, root, ns, s);
    Paint(black, false, c, t, root, ns, s);
    var t' := t.(red := false);
    Up(c, t', black, root, ns, s);
    var g := ForkAt(c.onLeft, t', c.n, c.red, c.sib);
    Paint(red, true, c.up, g, root, ns, s);
    Down(c.up, g.(red := true), red, root, ns, s, c.onLeft);
  }

  // The uncle of the red elm is red too: it, the parent and the grandparent change color.
  method Recolor(elm: Node, parent: Node, gparent: Node, tmp: Node, ghost c: Context, ghost t: Tree,
                 ghost root: Node?, ghost ns: set<Node>, ghost s: seq<Node>) returns (ghost t': Tree)
    requires At(c, t, elm, root, ns, s) && Inserted(c, t) && c.Frame? && c.red && c.up.Frame?
    requires parent == c.n && gparent == c.up.n && tmp == RootOf(c.up.sib) && IsRed(c.up.sib)
    modifies ns
    ensures At(c.up.up, t', gparent, root, ns, s) && Inserted(c.up.up, t')
  {
    hide At, Balanced, NoRedRed, BlackHeight, ContextOk;
    Up(c, t, elm, root, ns, s);
    var up, p := c.up, ForkAt(c.onLeft, t, c.n, c.red, c.sib);
    Look(up, p, parent, root, ns, s);
    Up(up, p, parent, root, ns, s);
    var g := ForkAt(up.onLeft, p, up.n, up.red, up.sib);
    Down(up.up, g, gparent, root, ns, s, !up.onLeft);
    PaintSibling(tmp, false, up, p, parent, root, ns, s);
    SetBlackRed(parent, gparent, up.(sib := up.sib.(red := false)), p, root, ns, s);
    Up(up.(red := true, sib := up.sib.(red := false)), p.(red := false), parent, root, ns, s);
    t' := ForkAt(up.onLeft, p.(red := false), up.n, true, up.sib.(red := false));
    RecolorOk(c, t);
  }

  lemma RecolorOk(c: Context, t: Tree)
    requires Inserted(c, t) && c.Frame? && c.red && c.up.Frame? && IsRed(c.up.sib)
    ensures
      var p := ForkAt(c.onLeft, t, c.n, false, c.sib);
      Inserted(c.up.up, ForkAt(c.up.onLeft, p, c.up.n, true, c.up.sib.(red := false)))
  {
    var p, u := ForkAt(c.onLeft, t, c.n, false, c.sib), c.up.sib.(red := false);
    assert ContextOk(c.up, BlackHeight(t));
    ForkOk(c.onLeft, t, c.n, false, c.sib);
    ForkOk(true, u.l, u.n, false, u.r);
    ForkOk(c.up.onLeft, p, c.up.n, true, u);
  }

  lemma ForkOk(onLeft: bool, t: Tree, n: Node, red: bool, sib: Tree)
    requires Balanced(t) && Balanced(sib) && BlackHeight(t) == BlackHeight(sib)
    ensures
      var f := ForkAt(onLeft, t, n, red, sib);
      && Balanced(f) && BlackHeight(f) == BlackHeight(t) + (if red then 0 else 1)
      && (NoRedRed(t) && NoRedRed(sib) && (red ==> !IsRed(t) && !IsRed(sib)) ==> NoRedRed(f))
  {
  }

  // The sibling of the hole changes color.
  method PaintSibling(n: Node, red: bool, ghost c: Context, ghost t: Tree, ghost p: Node?, ghost root: Node?,
                      ghost ns: set<Node>, ghost s: seq<Node>)
    requires At(c, t, p, root, ns, s) && c.Frame? && c.sib.Fork? && n == c.sib.n
    modifies n`red
    ensures At(c.(sib := c.sib.(red := red)), t, p, root, ns, s)
  {
    hide At;
    Up(c, t, p, root, ns, s);
    Look(c, t, p, root, ns, s);
    var f := ForkAt(c.onLeft, t, c.n, c.red, c.sib);
    Down(c.up, f, c.n, root, ns, s, !c.onLeft);
    var c' := Frame(c.up, !c.onLeft, c.n, c.red, t);
    Paint(n, red, c', c.sib, root, ns, s);
    Up(c', c.sib.(red := red), n, root, ns, s);
    Down(c.up, ForkAt(c.onLeft, t, c.n, c.red, c.sib.(red := red)), c.n, root, ns, s, c.onLeft);
  }

  lemma StraightenOk(c: Context, t: Tree)
    requires Inserted(c, t) && c.Frame? && c.red
    ensures
      Inserted(Frame(c.up, !c.onLeft, t.n, true, Arm(t, c.onLeft)),
               ForkAt(!c.onLeft, c.sib, c.n, true, Arm(t, !c.onLeft)))
  {
    var t' := ForkAt(!c.onLeft, c.sib, c.n, true, Arm(t, !c.onLeft));
    ForkOk(!c.onLeft, c.sib, c.n, true, Arm(t, !c.onLeft));
  }

  lemma TurnOk(c: Context, t: Tree)
    requires Inserted(c, t) && c.Frame? && c.red && c.up.Frame? && !IsRed(c.up.sib)
    ensures
      var side := c.onLeft;
      Inserted(Frame(c.up.up, side, c.n, false, ForkAt(side, c.sib, c.up.n, true, c.up.sib)), t)
  {
    assert ContextOk(c.up, BlackHeight(t));
    ForkOk(c.onLeft, c.sib, c.up.n, true, c.up.sib);
  }

  // elm is the right child of its red parent: parent and elm change places.
  method StraightenLeft(head: Head, elm: Node, parent: Node, ghost c: Context, ghost t: Tree, ghost ns: set<Node>,
                        ghost s: seq<Node>)
    returns (ghost c': Context, ghost t': Tree)
    requires At(c, t, elm, head.root, ns, s) && Inserted(c, t) && c.Frame? && c.red && !c.onLeft && parent == c.n
    modifies head`root, ns
    ensures At(c', t', parent, head.root, ns, s) && Inserted(c', t')
    ensures c'.Frame? && c'.red && c'.onLeft && c'.n == elm && c'.up == c.up
  {
    hide At, Balanced, NoRedRed, BlackHeight, ContextOk;
    Look(c, t, elm, head.root, ns, s);
    Up(c, t, elm, head.root, ns, s);
    var p := ForkAt(c.onLeft, t, c.n, c.red, c.sib);
    var tmp := RotateLeftAt(head, parent, c.up, p, ns, s);
    Down(c.up, Rotated(p, false), elm, head.root, ns, s, true);
    c', t' := Frame(c.up, true, elm, true, Arm(t, false)), ForkAt(true, c.sib, parent, true, Arm(t, true));
    Look(c', t', tmp.left, head.root, ns, s);
    StraightenOk(c, t);
  }

  // elm and its red parent are left children: the parent goes above the grandparent, and is black then.
  method TurnRight(head: Head, elm: Node, parent: Node, gparent: Node, ghost c: Context, ghost t: Tree,
                   ghost ns: set<Node>, ghost s: seq<Node>)
    returns (ghost c': Context)
    requires At(c, t, elm, head.root, ns, s) && Inserted(c, t) && c.Frame? && c.red && c.up.Frame?
    requires c.onLeft && c.up.onLeft && parent == c.n && gparent == c.up.n && !IsRed(c.up.sib)
    modifies head`root, ns
    ensures At(c', t, elm, head.root, ns, s) && Inserted(c', t) && c'.Frame? && !c'.red && c'.n == parent
  {
    hide At, Balanced, NoRedRed, BlackHeight, ContextOk;
    Look(c, t, elm, head.root, ns, s);
    Up(c, t, elm, head.root, ns, s);
    var p := ForkAt(c.onLeft, t, c.n, c.red, c.sib);
    Look(c.up, p, parent, head.root, ns, s);
    SetBlackRed(parent, gparent, c.up, p, head.root, ns, s);
    Up(c.up.(red := true), p.(red := false), parent, head.root, ns, s);
    var g := ForkAt(c.up.onLeft, p.(red := false), c.up.n, true, c.up.sib);
    var tmp := RotateRightAt(head, gparent, c.up.up, g, ns, s);
    Down(c.up.up, Rotated(g, true), parent, head.root, ns, s, true);
    c' := Frame(c.up.up, true, parent, false, ForkAt(true, c.sib, gparent, true, c.up.sib));
    Look(c', t, tmp.left, head.root, ns, s);
    TurnOk(c, t);
  }

  // elm is the left child of its red parent: parent and elm change places.
  method StraightenRight(head: Head, elm: Node, parent: Node, ghost c: Context, ghost t: Tree, ghost ns: set<Node>,
                         ghost s: seq<Node>)
    returns (ghost c': Context, ghost t': Tree)
    requires At(c, t, elm, head.root, ns, s) && Inserted(c, t) && c.Frame? && c.red && c.onLeft && parent == c.n
    modifies head`root, ns
    ensures At(c', t', parent, head.root, ns, s) && Inserted(c', t')
    ensures c'.Frame? && c'.red && !c'.onLeft && c'.n == elm && c'.up == c.up
  {
    hide At, Balanced, NoRedRed, BlackHeight, ContextOk;
    Look(c, t, elm, head.root, ns, s);
    Up(c, t, elm, head.root, ns, s);
    var p := ForkAt(c.onLeft, t, c.n, c.red, c.sib);
    var tmp := RotateRightAt(head, parent, c.up, p, ns, s);
    Down(c.up, Rotated(p, true), elm, head.root, ns, s, false);
    c', t' := Frame(c.up, false, elm, true, Arm(t, true)), ForkAt(false, c.sib, parent, true, Arm(t, false));
    Look(c', t', tmp.right, head.root, ns, s);
    StraightenOk(c, t);
  }

  // elm and its red parent are right children: the parent goes above the grandparent, and is black then.
  method TurnLeft(head: Head, elm: Node, parent: Node, gparent: Node, ghost c: Context, ghost t: Tree,
                  ghost ns: set<Node>, ghost s: seq<Node>)
    returns (ghost c': Context)
    requires At(c, t, elm, head.root, ns, s) && Inserted(c, t) && c.Frame? && c.red && c.up.Frame?
    requires !c.onLeft && !c.up.onLeft && parent == c.n && gparent == c.up.n && !IsRed(c.up.sib)
    modifies head`root, ns
    ensures At(c', t, elm, head.root, ns, s) && Inserted(c', t) && c'.Frame? && !c'.red && c'.n == parent
  {
    hide At, Balanced, NoRedRed, BlackHeight, ContextOk;
    Look(c, t, elm, head.root, ns, s);
    Up(c, t, elm, head.root, ns, s);
    var p := ForkAt(c.onLeft, t, c.n, c.red, c.sib);
    Look(c.up, p, parent, head.root, ns, s);
    SetBlackRed(parent, gparent, c.up, p, head.root, ns, s);
    Up(c.up.(red := true), p.(red := false), parent, head.root, ns, s);
    var g := ForkAt(c.up.onLeft, p.(red := false), c.up.n, true, c.up.sib);
    var tmp := RotateLeftAt(head, gparent, c.up.up, g, ns, s);
    Down(c.up.up, Rotated(g, false), parent, head.root, ns, s, false);
    c' := Frame(c.up.up, false, parent, false, ForkAt(false, c.sib, gparent, true, c.up.sib));
    Look(c', t, tmp.right, head.root, ns, s);
    TurnOk(c, t);
  }

  ghost function Depth(c: Context): nat { if c.Top? then 0 else Depth(c.up) + 1 }

  // RB_INSERT_COLOR
  method InsertColor(head: Head, elm0: Node, ghost c0: Context, ghost t0: Tree, ghost ns: set<Node>, ghost s: seq<Node>)
    returns (ghost t': Tree)
    requires At(c0, t0, elm0, head.root, ns, s) && Inserted(c0, t0)
    modifies head`root, ns
    ensures At(Top, t', head.root, head.root, ns, s) && RedBlack(t')
  {
    hide At, Inserted, RedBlack, ContextOk;
    ghost var c, t := c0, t0;
    var elm := elm0;
    InsertedContext(c, t);
    Look(c, t, elm, head.root, ns, s);
    var parent := elm.parent;
    while parent != null && parent.red
      invariant At(c, t, elm, head.root, ns, s) && Inserted(c, t) && t.Fork? && elm == t.n
      invariant parent == ParentOf(c) && (c.Frame? ==> c.red == c.n.red)
      invariant (c.Frame? && c.red ==> c.up.Frame? && !c.up.red)
      decreases if c.Frame? && c.red then 1 + Depth(c) else 0
    {
      elm, c, t := InsertStep(head, elm, parent, c, t, ns, s);
      InsertedContext(c, t);
      Look(c, t, elm, head.root, ns, s);
      parent := elm.parent;
    }
    t' := Finish(head, elm, c, t, ns, s);
  }

  lemma InsertedContext(c: Context, t: Tree)
    requires Inserted(c, t)
    ensures t.Fork? && t.red && (c.Frame? && c.red ==> c.up.Frame? && !c.up.red)
  {
  }

  // One turn of the loop.
  method InsertStep(head: Head, elm: Node, parent: Node, ghost c: Context, ghost t: Tree, ghost ns: set<Node>,
                    ghost s: seq<Node>)
    returns (elm': Node, ghost c': Context, ghost t': Tree)
    requires At(c, t, elm, head.root, ns, s) && Inserted(c, t) && c.Frame? && c.red && c.up.Frame? && parent == c.n
    modifies head`root, ns
    ensures At(c', t', elm', head.root, ns, s) && Inserted(c', t')
    ensures c'.Frame? && c'.red ==> Depth(c') < Depth(c)
  {
    hide At, Inserted;
    Look(c, t, elm, head.root, ns, s);
    Up(c, t, elm, head.root, ns, s);
    Look(c.up, ForkAt(c.onLeft, t, c.n, c.red, c.sib), parent, head.root, ns, s);
    LookSibling(c.up, ForkAt(c.onLeft, t, c.n, c.red, c.sib), parent, head.root, ns, s);
    var gparent := parent.parent;
    if parent == gparent.left {
      var tmp := gparent.right;
      if tmp != null && tmp.red {
        t' := Recolor(elm, parent, gparent, tmp, c, t, head.root, ns, s);
        elm', c' := gparent, c.up.up;
        return;
      }
      if parent.right == elm {
        c', t' := StraightenLeft(head, elm, parent, c, t, ns, s);
        elm' := parent;
        c' := TurnRight(head, elm', elm, gparent, c', t', ns, s);
      } else {
        t', elm' := t, elm;
        c' := TurnRight(head, elm, parent, gparent, c, t, ns, s);
      }
    } else {
      var tmp := gparent.left;
      if tmp != null && tmp.red {
        t' := Recolor(elm, parent, gparent, tmp, c, t, head.root, ns, s);
        elm', c' := gparent, c.up.up;
        return;
      }
      if parent.left == elm {
        c', t' := StraightenRight(head, elm, parent, c, t, ns, s);
        elm' := parent;
        c' := TurnLeft(head, elm', elm, gparent, c', t', ns, s);
      } else {
        t', elm' := t, elm;
        c' := TurnLeft(head, elm, parent, gparent, c, t, ns, s);
      }
    }
  }

  lemma LookSibling(c: Context, t: Tree, p: Node?, root: Node?, ns: set<Node>, s: seq<Node>)
    requires At(c, t, p, root, ns, s) && c.Frame?
    ensures c.sib.Fork? ==>
      && c.sib.n.red == c.sib.red && c.sib.n.left == RootOf(c.sib.l) && c.sib.n.right == RootOf(c.sib.r)
      && (c.sib.l.Fork? ==> c.sib.l.n.red == c.sib.l.red) && (c.sib.r.Fork? ==> c.sib.r.n.red == c.sib.r.red)
  {
    if c.sib.Fork? {
      var n := c.sib.n;
      assert Linked(c.sib.l, n.left, n) && Linked(c.sib.r, n.right, n);
    }
  }

  // The root becomes black.
  method Finish(head: Head, elm: Node, ghost c: Context, ghost t: Tree, ghost ns: set<Node>, ghost s: seq<Node>)
    returns (ghost t': Tree)
    requires At(c, t, elm, head.root, ns, s) && Inserted(c, t) && (c.Frame? ==> !c.red)
    modifies ns
    ensures At(Top, t', head.root, head.root, ns, s) && RedBlack(t')
  {
    hide At;
    t' := Plug(c, t);
    PlugAt(c, t, elm, head.root, ns, s);
    Look(Top, t', head.root, head.root, ns, s);
    if c.Top? {
      ForkOk(true, t.l, t.n, false, t.r);
      t' := t.(red := false);
    } else {
      PlugOk(c, t);
      PlugFork(c, t);
    }
    assert t'.(red := false) == t';
    Paint(head.root, false, Top, Plug(c, t), head.root, ns, s);
  }

  lemma {:induction false} PlugFork(c: Context, t: Tree)
    requires c.Frame? || t.Fork?
    ensures Plug(c, t).Fork?
  {
    if c.Frame? {
      PlugFork(c.up, ForkAt(c.onLeft, t, c.n, c.red, c.sib));
    }
  }

  // ----- order -----

  ghost predicate Sorted(cmp: Comparison, s: seq<Node>) {
    forall i, j :: 0 <= i < j < |s| ==> cmp(s[i].key, s[j].key) < 0
  }

  ghost predicate AllBelow(cmp: Comparison, s: seq<Node>, key: int) { forall n :: n in s ==> cmp(key, n.key) > 0 }
  ghost predicate AllAbove(cmp: Comparison, s: seq<Node>, key: int) { forall n :: n in s ==> cmp(key, n.key) < 0 }

  // What head holds is a red-black tree, and in the order of cmp.
  ghost predicate Valid(head: Head, cmp: Comparison)
    reads head, Nodes(head.tree)
  {
    && At(Top, head.tree, head.root, head.root, Nodes(head.tree), InOrder(head.tree))
    && RedBlack(head.tree) && Sorted(cmp, InOrder(head.tree))
  }

  // The keys around the hole are below and above the given one, and so are the colors as they should be.
  ghost predicate Sought(cmp: Comparison, key: int, c: Context, t: Tree) {
    && AllBelow(cmp, Before(c), key) && AllAbove(cmp, After(c), key)
    && Balanced(t) && NoRedRed(t) && ContextOk(c, BlackHeight(t))
    && (IsRed(t) ==> c.Frame? && !c.red)
  }

  lemma SoughtDown(cmp: Comparison, key: int, c: Context, t: Tree, left: bool)
    requires Ordering(cmp) && Sought(cmp, key, c, t) && t.Fork? && Sorted(cmp, Order(c, t))
    requires if left then cmp(key, t.n.key) < 0 else cmp(key, t.n.key) > 0
    ensures Sought(cmp, key, Frame(c, left, t.n, t.red, Arm(t, !left)), Arm(t, left))
  {
    hide Balanced, NoRedRed, ContextOk, BlackHeight, Sorted, Ordering, InOrder;
    assert InOrder(t) == InOrder(t.l) + [t.n] + InOrder(t.r) by { InOrderFork(t); }
    if left {
      AboveFork(cmp, key, Before(c), InOrder(t.l), t.n, InOrder(t.r), After(c));
    } else {
      BelowFork(cmp, key, Before(c), InOrder(t.l), t.n, InOrder(t.r), After(c));
    }
    ColorsDown(c, t, left);
  }

  lemma InOrderFork(t: Tree)
    requires t.Fork?
    ensures InOrder(t) == InOrder(t.l) + [t.n] + InOrder(t.r)
  {
  }

  lemma ColorsDown(c: Context, t: Tree, left: bool)
    requires Balanced(t) && NoRedRed(t) && ContextOk(c, BlackHeight(t)) && (IsRed(t) ==> c.Frame? && !c.red) && t.Fork?
    ensures
      var c', t' := Frame(c, left, t.n, t.red, Arm(t, !left)), Arm(t, left);
      Balanced(t') && NoRedRed(t') && ContextOk(c', BlackHeight(t')) && (IsRed(t') ==> !c'.red)
  {
  }

  lemma AboveFork(cmp: Comparison, key: int, b: seq<Node>, l: seq<Node>, n: Node, r: seq<Node>, a: seq<Node>)
    requires Ordering(cmp) && Sorted(cmp, b + (l + [n] + r) + a) && AllAbove(cmp, a, key) && cmp(key, n.key) < 0
    ensures AllAbove(cmp, [n] + r + a, key)
  {
    var s, k := b + (l + [n] + r) + a, |b| + |l|;
    forall m | m in r ensures cmp(key, m.key) < 0 {
      var j :| 0 <= j < |r| && r[j] == m;
      assert s[k] == n && s[k + 1 + j] == m;
      Less(cmp, key, n.key, m.key);
    }
  }

  lemma BelowFork(cmp: Comparison, key: int, b: seq<Node>, l: seq<Node>, n: Node, r: seq<Node>, a: seq<Node>)
    requires Ordering(cmp) && Sorted(cmp, b + (l + [n] + r) + a) && AllBelow(cmp, b, key) && cmp(key, n.key) > 0
    ensures AllBelow(cmp, b + l + [n], key)
  {
    var s, k := b + (l + [n] + r) + a, |b| + |l|;
    forall m | m in l ensures cmp(key, m.key) > 0 {
      var j :| 0 <= j < |l| && l[j] == m;
      assert s[k] == n && s[|b| + j] == m;
      Less(cmp, m.key, n.key, key);
    }
  }

  ghost function Insertion(s: seq<Node>, k: nat, n: Node): seq<Node>
    requires k <= |s|
  {
    s[..k] + [n] + s[k..]
  }

  ghost predicate Inserts(s: seq<Node>, n: Node, s': seq<Node>) {
    exists k :: 0 <= k <= |s| && s' == Insertion(s, k, n)
  }

  // RB_INSERT: null, or the node that is in the place of elm already.
  method Insert(head: Head, elm: Node, cmp: Comparison) returns (r: Node?)
    requires Ordering(cmp) && Valid(head, cmp) && elm !in Nodes(head.tree)
    modifies head, elm, Nodes(head.tree)
    ensures Valid(head, cmp)
    ensures r != null ==> head.tree == old(head.tree) && r in Nodes(head.tree) && cmp(elm.key, r.key) == 0
    ensures r == null ==>
      Nodes(head.tree) == old(Nodes(head.tree)) + {elm} && Inserts(old(InOrder(head.tree)), elm, InOrder(head.tree))
    ensures r == null ==> forall n :: n in old(Nodes(head.tree)) ==> cmp(elm.key, n.key) != 0
  {
    hide At, Sought, Sorted, Ordering, RedBlack;
    ghost var s, ns := InOrder(head.tree), Nodes(head.tree);
    ghost var c, t := Top, head.tree;
    SoughtTop(cmp, elm.key, t);
    var tmp := head.root;
    var parent: Node? := null;
    var comp := 0;
    Look(c, t, tmp, head.root, ns, s);
    while tmp != null
      invariant At(c, t, tmp, head.root, ns, s) && Sought(cmp, elm.key, c, t) && tmp == RootOf(t)
      invariant parent == ParentOf(c) && (c.Frame? ==> (comp < 0) == c.onLeft) && Valid(head, cmp)
      decreases t
      modifies {}
    {
      parent := tmp;
      comp := cmp(elm.key, parent.key);
      Look(c, t, tmp, head.root, ns, s);
      if comp < 0 {
        Descend(cmp, elm.key, c, t, tmp, head.root, ns, s, true);
        c, t := Frame(c, true, t.n, t.red, t.r), t.l;
        tmp := tmp.left;
      } else if comp > 0 {
        Descend(cmp, elm.key, c, t, tmp, head.root, ns, s, false);
        c, t := Frame(c, false, t.n, t.red, t.l), t.r;
        tmp := tmp.right;
      } else {
        return tmp;
      }
    }
    InsertAt(head, elm, parent, comp, cmp, c);
    r := null;
  }

  lemma SoughtTop(cmp: Comparison, key: int, t: Tree)
    requires RedBlack(t)
    ensures Sought(cmp, key, Top, t)
  {
  }

  // The last part of RB_INSERT.
  method InsertAt(head: Head, elm: Node, parent: Node?, comp: int, cmp: Comparison, ghost c: Context)
    requires Ordering(cmp) && Sorted(cmp, InOrder(head.tree)) && elm !in Nodes(head.tree)
    requires At(c, Leaf, null, head.root, Nodes(head.tree), InOrder(head.tree)) && Sought(cmp, elm.key, c, Leaf)
    requires parent == ParentOf(c) && (c.Frame? ==> (comp < 0) == c.onLeft)
    modifies head, elm, Nodes(head.tree)
    ensures Valid(head, cmp)
    ensures Nodes(head.tree) == old(Nodes(head.tree)) + {elm}
    ensures Inserts(old(InOrder(head.tree)), elm, InOrder(head.tree))
    ensures forall n :: n in old(Nodes(head.tree)) ==> cmp(elm.key, n.key) != 0
  {
    hide At, RedBlack, Sought, Sorted, Inserts, Nodes, InOrder, Ordering, Before, After;
    ghost var ns, s := Nodes(head.tree), InOrder(head.tree);
    ghost var e := Fork(Leaf, elm, true, Leaf);
    NewOrder(cmp, elm, c, ns, s, head.root);
    Hang(head, elm, parent, comp, c, ns, s);
    ghost var ns', s' := ns + {elm}, Before(c) + [elm] + After(c);
    head.tree := InsertColor(head, elm, c, e, ns', s');
    TreeAt(head.tree, head.root, ns', s');
  }

  lemma TreeAt(t: Tree, root: Node?, ns: set<Node>, s: seq<Node>)
    requires At(Top, t, root, root, ns, s)
    ensures Nodes(t) == ns && InOrder(t) == s
  {
    assert [] + InOrder(t) + [] == InOrder(t);
  }

  lemma NewOrder(cmp: Comparison, elm: Node, c: Context, ns: set<Node>, s: seq<Node>, root: Node?)
    requires Ordering(cmp) && Sorted(cmp, s) && At(c, Leaf, null, root, ns, s) && Sought(cmp, elm.key, c, Leaf)
    ensures Sorted(cmp, Before(c) + [elm] + After(c)) && Inserts(s, elm, Before(c) + [elm] + After(c))
    ensures Inserted(c, Fork(Leaf, elm, true, Leaf))
    ensures forall n :: n in ns ==> cmp(elm.key, n.key) != 0
  {
    var b, a := Before(c), After(c);
    assert s == b + a;
    forall n | n in ns ensures cmp(elm.key, n.key) != 0 {
      PlugNodes(c, Leaf);
      PlugOrder(c, Leaf);
      InOrderNodes(Plug(c, Leaf));
      assert n in b + [] + a;
    }
    assert b + [elm] + a == Insertion(s, |b|, elm);
    SortedInsertion(cmp, elm, b, a);
  }

  lemma SortedInsertion(cmp: Comparison, elm: Node, b: seq<Node>, a: seq<Node>)
    requires Ordering(cmp) && Sorted(cmp, b + a) && AllBelow(cmp, b, elm.key) && AllAbove(cmp, a, elm.key)
    ensures Sorted(cmp, b + [elm] + a)
  {
    var s, s' := b + a, b + [elm] + a;
    forall i, j | 0 <= i < j < |s'| ensures cmp(s'[i].key, s'[j].key) < 0 {
      if j == |b| {
        assert s'[i] in b;
      } else if i == |b| {
        assert s'[j] in a;
      } else {
        var i0, j0 := if i < |b| then i else i - 1, if j < |b| then j else j - 1;
        assert s'[i] == s[i0] && s'[j] == s[j0];
      }
    }
  }

  // RB_SET, and the link from the parent.
  method SetAndLink(head: Head, elm: Node, parent: Node?, comp: int)
    requires parent != elm
    modifies head`root, elm, Maybe(parent)
    ensures elm.parent == parent && elm.left == null && elm.right == null && elm.red
    ensures parent == null ==> head.root == elm
    ensures parent != null ==>
      && head.root == old(head.root) && parent.parent == old(parent.parent) && parent.red == old(parent.red)
      && if comp < 0 then parent.left == elm && parent.right == old(parent.right)
         else parent.right == elm && parent.left == old(parent.left)
  {
    elm.parent := parent;
    elm.left, elm.right := null, null;
    elm.red := true;
    if parent != null {
      if comp < 0 {
        parent.left := elm;
      } else {
        parent.right := elm;
      }
    } else {
      head.root := elm;
    }
  }

  method Hang(head: Head, elm: Node, parent: Node?, comp: int, ghost c: Context, ghost ns: set<Node>,
              ghost s: seq<Node>)
    requires At(c, Leaf, null, head.root, ns, s) && elm !in ns
    requires parent == ParentOf(c) && (c.Frame? ==> (comp < 0) == c.onLeft)
    modifies head`root, elm, ns
    ensures At(c, Fork(Leaf, elm, true, Leaf), elm, head.root, ns + {elm}, Before(c) + [elm] + After(c))
  {
    hide At, Linked, Around, Nodes, ContextNodes, Apart, Order;
    Look(c, Leaf, null, head.root, ns, s);
    HoleParts(c, Leaf, null, head.root, ns, s);
    AllocatedParts(c, Leaf);
    SetAndLink(head, elm, parent, comp);
    Hung(c, elm, head.root, ns, s);
  }

  lemma Hung(c: Context, elm: Node, root: Node?, ns: set<Node>, s: seq<Node>)
    requires ns == ContextNodes(c) && elm !in ns && DistinctContext(c)
    requires elm.parent == ParentOf(c) && elm.left == null && elm.right == null && elm.red
    requires if c.Top? then root == elm else ContextLinked(c, root) && Link(c.n, c.onLeft) == elm
    ensures At(c, Fork(Leaf, elm, true, Leaf), elm, root, ns + {elm}, Before(c) + [elm] + After(c))
  {
    assert InOrder(Fork(Leaf, elm, true, Leaf)) == [elm];
    assert Linked(Leaf, elm.left, elm) && Linked(Leaf, elm.right, elm);
  }

  lemma Descend(cmp: Comparison, key: int, c: Context, t: Tree, p: Node?, root: Node?, ns: set<Node>, s: seq<Node>,
                left: bool)
    requires At(c, t, p, root, ns, s) && Ordering(cmp) && Sorted(cmp, s) && Sought(cmp, key, c, t) && t.Fork?
    requires if left then cmp(key, t.n.key) < 0 else cmp(key, t.n.key) > 0
    ensures
      var c' := Frame(c, left, t.n, t.red, Arm(t, !left));
      At(c', Arm(t, left), Link(t.n, left), root, ns, s) && Sought(cmp, key, c', Arm(t, left))
  {
    Down(c, t, p, root, ns, s, left);
    SoughtDown(cmp, key, c, t, left);
  }

  // ----- removal: colors -----

  ghost function Blackened(t: Tree): Tree { if t.Leaf? then t else t.(red := false) }

  lemma ArmsOk(t: Tree)
    requires Balanced(t) && NoRedRed(t) && t.Fork?
    ensures forall left :: Balanced(Arm(t, left)) && NoRedRed(Arm(t, left)) && (t.red ==> !IsRed(Arm(t, left)))
    ensures forall left :: BlackHeight(Arm(t, left)) + (if t.red then 0 else 1) == BlackHeight(t)
  {
  }

  // t has one black node too few on each way for c, and may be red.
  ghost predicate Short(c: Context, t: Tree) {
    Balanced(t) && NoRedRed(Blackened(t)) && ContextOk(c, BlackHeight(t) + 1)
  }

  lemma ShortSibling(c: Context, t: Tree)
    requires Short(c, t) && c.Frame?
    ensures c.sib.Fork? && (c.sib.red ==> !c.red && c.sib.l.Fork? && c.sib.r.Fork? && !c.sib.l.red && !c.sib.r.red)
    ensures c.sib.Fork? && IsRed(c.sib.l) ==> c.sib.l.Fork?
  {
  }

  // The sibling is red: it goes above the parent, and they change colors.
  lemma RedSiblingOk(c: Context, t: Tree)
    requires Short(c, t) && c.Frame? && IsRed(c.sib)
    ensures
      var side, s := c.onLeft, c.sib;
      Short(Frame(Frame(c.up, side, s.n, false, Arm(s, !side)), side, c.n, true, Arm(s, side)), t)
  {
  }

  // The sibling and its children are black: it becomes red, and the parent is short then.
  lemma BlackSiblingOk(c: Context, t: Tree)
    requires Short(c, t) && c.Frame? && !IsRed(t) && c.sib.Fork? && !c.sib.red && !IsRed(c.sib.l) && !IsRed(c.sib.r)
    ensures Short(c.up, ForkAt(c.onLeft, t, c.n, c.red, c.sib.(red := true)))
    ensures c.red ==> IsRed(ForkAt(c.onLeft, t, c.n, c.red, c.sib.(red := true)))
  {
    var s := c.sib.(red := true);
    ForkOk(true, s.l, s.n, true, s.r);
    ForkOk(c.onLeft, t, c.n, c.red, s);
    ForkOk(c.onLeft, t, c.n, false, s);
  }

  // The nearer child of the sibling is red: it goes above the sibling, and they change colors.
  lemma NearChildOk(c: Context, t: Tree)
    requires Short(c, t) && c.Frame? && c.sib.Fork? && !c.sib.red && IsRed(Arm(c.sib, c.onLeft))
    requires !IsRed(Arm(c.sib, !c.onLeft))
    ensures
      var side, s, i := c.onLeft, c.sib, Arm(c.sib, c.onLeft);
      var s' := ForkAt(!side, ForkAt(!side, Arm(s, !side), s.n, true, Arm(i, !side)), i.n, false, Arm(i, side));
      Short(c.(sib := s'), t)
  {
    var side, s, i := c.onLeft, c.sib, Arm(c.sib, c.onLeft);
    ArmsOk(s);
    ArmsOk(i);
    ForkOk(!side, Arm(s, !side), s.n, true, Arm(i, !side));
    ForkOk(!side, ForkAt(!side, Arm(s, !side), s.n, true, Arm(i, !side)), i.n, false, Arm(i, side));
  }

  // The farther child of the sibling is red: the sibling goes above the parent, and nothing is short then.
  lemma FarChildOk(c: Context, t: Tree)
    requires Short(c, t) && c.Frame? && !IsRed(t) && c.sib.Fork? && !c.sib.red && IsRed(Arm(c.sib, !c.onLeft))
    ensures
      var side, s := c.onLeft, c.sib;
      var f := ForkAt(side, ForkAt(side, t, c.n, false, Arm(s, side)), s.n, c.red, Arm(s, !side).(red := false));
      RedBlack(Plug(c.up, f))
  {
    var side, s := c.onLeft, c.sib;
    var o := Arm(s, !side).(red := false);
    ArmsOk(s);
    ArmsOk(Arm(s, !side));
    ForkOk(true, o.l, o.n, false, o.r);
    ForkOk(side, t, c.n, false, Arm(s, side));
    var f := ForkAt(side, ForkAt(side, t, c.n, false, Arm(s, side)), s.n, c.red, o);
    ForkOk(side, ForkAt(side, t, c.n, false, Arm(s, side)), s.n, c.red, o);
    PlugOk(c.up, f);
  }

  // The part of the loop for a red sibling of a left child.
  method LeftRedSibling(head: Head, parent: Node, tmp: Node, ghost c: Context, ghost t: Tree, ghost elm: Node?,
                        ghost ns: set<Node>, ghost s: seq<Node>)
    returns (ghost c': Context)
    requires At(c, t, elm, head.root, ns, s) && Short(c, t) && c.Frame? && c.onLeft && parent == c.n
    requires IsRed(c.sib) && tmp == c.sib.n
    modifies head`root, ns
    ensures At(c', t, elm, head.root, ns, s) && Short(c', t) && c'.Frame? && c'.onLeft && c'.n == parent
    ensures !IsRed(c'.sib) && c'.red
  {
    hide At, Short, Balanced, NoRedRed, BlackHeight, ContextOk;
    ShortSibling(c, t);
    Look(c, t, elm, head.root, ns, s);
    Up(c, t, elm, head.root, ns, s);
    var p := ForkAt(c.onLeft, t, c.n, c.red, c.sib);
    Down(c.up, p, parent, head.root, ns, s, false);
    SetBlackRed(tmp, parent, Frame(c.up, false, parent, c.red, t), c.sib, head.root, ns, s);
    Up(Frame(c.up, false, parent, true, t), c.sib.(red := false), tmp, head.root, ns, s);
    var p' := ForkAt(c.onLeft, t, c.n, true, c.sib.(red := false));
    var y := RotateLeftAt(head, parent, c.up, p', ns, s);
    Down(c.up, Rotated(p', false), y, head.root, ns, s, true);
    var up := Frame(c.up, true, y, false, Arm(c.sib, false));
    var q := ForkAt(true, t, parent, true, Arm(c.sib, true));
    Look(up, q, y.left, head.root, ns, s);
    Down(up, q, y.left, head.root, ns, s, true);
    c' := Frame(up, true, parent, true, Arm(c.sib, true));
    Look(c', t, parent.left, head.root, ns, s);
    RedSiblingOk(c, t);
  }

  // The part for a black sibling whose child near to elm is red and whose other one is not.
  method LeftNearChild(head: Head, tmp: Node, ghost c: Context, ghost t: Tree, ghost elm: Node?, ghost ns: set<Node>,
                       ghost s: seq<Node>)
    returns (ghost c': Context)
    requires At(c, t, elm, head.root, ns, s) && Short(c, t) && c.Frame? && c.onLeft
    requires c.sib.Fork? && !c.sib.red && tmp == c.sib.n && IsRed(c.sib.l) && !IsRed(c.sib.r)
    modifies head`root, ns
    ensures At(c', t, elm, head.root, ns, s) && Short(c', t) && c'.Frame? && c'.onLeft == c.onLeft && c'.n == c.n
    ensures c'.red == c.red
    ensures c'.sib.Fork? && !c'.sib.red && IsRed(c'.sib.r)
  {
    hide At, Short, Balanced, NoRedRed, BlackHeight, ContextOk;
    Look(c, t, elm, head.root, ns, s);
    Up(c, t, elm, head.root, ns, s);
    var p := ForkAt(c.onLeft, t, c.n, c.red, c.sib);
    Down(c.up, p, c.n, head.root, ns, s, false);
    var d, i := Frame(c.up, false, c.n, c.red, t), c.sib.l;
    Look(d, c.sib, tmp, head.root, ns, s);
    var oleft := tmp.left;
    Down(d, c.sib, tmp, head.root, ns, s, true);
    Look(Frame(d, true, tmp, false, c.sib.r), i, oleft, head.root, ns, s);
    if oleft != null {
      Paint(oleft, false, Frame(d, true, tmp, false, c.sib.r), i, head.root, ns, s);
    }
    Up(Frame(d, true, tmp, false, c.sib.r), i.(red := false), oleft, head.root, ns, s);
    var sib := ForkAt(true, i.(red := false), tmp, false, c.sib.r);
    Paint(tmp, true, d, sib, head.root, ns, s);
    var y := RotateRightAt(head, tmp, d, sib.(red := true), ns, s);
    var sib' := Rotated(sib.(red := true), true);
    Up(d, sib', y, head.root, ns, s);
    Down(c.up, ForkAt(false, sib', c.n, c.red, t), c.n, head.root, ns, s, true);
    c' := c.(sib := sib');
    Look(c', t, c.n.left, head.root, ns, s);
    NearChildOk(c, t);
  }

  // The part for a black sibling whose child away from elm is red.
  method LeftFarChild(head: Head, parent: Node, tmp: Node, ghost c: Context, ghost t: Tree, ghost elm: Node?,
                      ghost ns: set<Node>, ghost s: seq<Node>)
    returns (ghost t': Tree)
    requires At(c, t, elm, head.root, ns, s) && Short(c, t) && c.Frame? && c.onLeft && parent == c.n && !IsRed(t)
    requires c.sib.Fork? && !c.sib.red && tmp == c.sib.n && IsRed(c.sib.r)
    modifies head`root, ns
    ensures At(Top, t', head.root, head.root, ns, s) && RedBlack(t')
  {
    hide At, Short, RedBlack, Balanced, NoRedRed, BlackHeight, ContextOk;
    Look(c, t, elm, head.root, ns, s);
    PaintSibling(tmp, parent.red, c, t, elm, head.root, ns, s);
    var sib1 := c.sib.(red := c.red);
    var c1 := c.(sib := sib1);
    Up(c1, t, elm, head.root, ns, s);
    var p1 := ForkAt(c.onLeft, t, parent, c.red, sib1);
    Paint(parent, false, c.up, p1, head.root, ns, s);
    Down(c.up, p1.(red := false), parent, head.root, ns, s, false);
    var d := Frame(c.up, false, parent, false, t);
    Look(d, sib1, parent.right, head.root, ns, s);
    Down(d, sib1, tmp, head.root, ns, s, false);
    var e := Frame(d, false, tmp, c.red, sib1.l);
    Look(e, sib1.r, tmp.right, head.root, ns, s);
    if tmp.right != null {
      Paint(tmp.right, false, e, sib1.r, head.root, ns, s);
    }
    Up(e, sib1.r.(red := false), tmp.right, head.root, ns, s);
    var sib2 := ForkAt(false, sib1.r.(red := false), tmp, c.red, sib1.l);
    Up(d, sib2, tmp, head.root, ns, s);
    var p2 := ForkAt(false, sib2, parent, false, t);
    var y := RotateLeftAt(head, parent, c.up, p2, ns, s);
    PlugAt(c.up, Rotated(p2, false), y, head.root, ns, s);
    t' := Plug(c.up, Rotated(p2, false));
    FarChildOk(c, t);
  }

  // The part of the loop for a red sibling of a right child.
  method RightRedSibling(head: Head, parent: Node, tmp: Node, ghost c: Context, ghost t: Tree, ghost elm: Node?,
                         ghost ns: set<Node>, ghost s: seq<Node>)
    returns (ghost c': Context)
    requires At(c, t, elm, head.root, ns, s) && Short(c, t) && c.Frame? && !c.onLeft && parent == c.n
    requires IsRed(c.sib) && tmp == c.sib.n
    modifies head`root, ns
    ensures At(c', t, elm, head.root, ns, s) && Short(c', t) && c'.Frame? && !c'.onLeft && c'.n == parent
    ensures !IsRed(c'.sib) && c'.red
  {
    hide At, Short, Balanced, NoRedRed, BlackHeight, ContextOk;
    ShortSibling(c, t);
    Look(c, t, elm, head.root, ns, s);
    Up(c, t, elm, head.root, ns, s);
    var p := ForkAt(c.onLeft, t, c.n, c.red, c.sib);
    Down(c.up, p, parent, head.root, ns, s, true);
    SetBlackRed(tmp, parent, Frame(c.up, true, parent, c.red, t), c.sib, head.root, ns, s);
    Up(Frame(c.up, true, parent, true, t), c.sib.(red := false), tmp, head.root, ns, s);
    var p' := ForkAt(c.onLeft, t, c.n, true, c.sib.(red := false));
    var y := RotateRightAt(head, parent, c.up, p', ns, s);
    Down(c.up, Rotated(p', true), y, head.root, ns, s, false);
    var up := Frame(c.up, false, y, false, Arm(c.sib, true));
    var q := ForkAt(false, t, parent, true, Arm(c.sib, false));
    Look(up, q, y.right, head.root, ns, s);
    Down(up, q, y.right, head.root, ns, s, false);
    c' := Frame(up, false, parent, true, Arm(c.sib, false));
    Look(c', t, parent.right, head.root, ns, s);
    RedSiblingOk(c, t);
  }

  // The part for a black sibling whose child near to elm is red and whose other one is not.
  method RightNearChild(head: Head, tmp: Node, ghost c: Context, ghost t: Tree, ghost elm: Node?, ghost ns: set<Node>,
                        ghost s: seq<Node>)
    returns (ghost c': Context)
    requires At(c, t, elm, head.root, ns, s) && Short(c, t) && c.Frame? && !c.onLeft
    requires c.sib.Fork? && !c.sib.red && tmp == c.sib.n && IsRed(c.sib.r) && !IsRed(c.sib.l)
    modifies head`root, ns
    ensures At(c', t, elm, head.root, ns, s) && Short(c', t) && c'.Frame? && c'.onLeft == c.onLeft && c'.n == c.n
    ensures c'.red == c.red
    ensures c'.sib.Fork? && !c'.sib.red && IsRed(c'.sib.l)
  {
    hide At, Short, Balanced, NoRedRed, BlackHeight, ContextOk;
    Look(c, t, elm, head.root, ns, s);
    Up(c, t, elm, head.root, ns, s);
    var p := ForkAt(c.onLeft, t, c.n, c.red, c.sib);
    Down(c.up, p, c.n, head.root, ns, s, true);
    var d, i := Frame(c.up, true, c.n, c.red, t), c.sib.r;
    Look(d, c.sib, tmp, head.root, ns, s);
    var oright := tmp.right;
    Down(d, c.sib, tmp, head.root, ns, s, false);
    Look(Frame(d, false, tmp, false, c.sib.l), i, oright, head.root, ns, s);
    if oright != null {
      Paint(oright, false, Frame(d, false, tmp, false, c.sib.l), i, head.root, ns, s);
    }
    Up(Frame(d, false, tmp, false, c.sib.l), i.(red := false), oright, head.root, ns, s);
    var sib := ForkAt(false, i.(red := false), tmp, false, c.sib.l);
    Paint(tmp, true, d, sib, head.root, ns, s);
    var y := RotateLeftAt(head, tmp, d, sib.(red := true), ns, s);
    var sib' := Rotated(sib.(red := true), false);
    Up(d, sib', y, head.root, ns, s);
    Down(c.up, ForkAt(true, sib', c.n, c.red, t), c.n, head.root, ns, s, false);
    c' := c.(sib := sib');
    Look(c', t, c.n.right, head.root, ns, s);
    NearChildOk(c, t);
  }

  // The part for a black sibling whose child away from elm is red.
  method RightFarChild(head: Head, parent: Node, tmp: Node, ghost c: Context, ghost t: Tree, ghost elm: Node?,
                       ghost ns: set<Node>, ghost s: seq<Node>)
    returns (ghost t': Tree)
    requires At(c, t, elm, head.root, ns, s) && Short(c, t) && c.Frame? && !c.onLeft && parent == c.n && !IsRed(t)
    requires c.sib.Fork? && !c.sib.red && tmp == c.sib.n && IsRed(c.sib.l)
    modifies head`root, ns
    ensures At(Top, t', head.root, head.root, ns, s) && RedBlack(t')
  {
    hide At, Short, RedBlack, Balanced, NoRedRed, BlackHeight, ContextOk;
    Look(c, t, elm, head.root, ns, s);
    PaintSibling(tmp, parent.red, c, t, elm, head.root, ns, s);
    var sib1 := c.sib.(red := c.red);
    var c1 := c.(sib := sib1);
    Up(c1, t, elm, head.root, ns, s);
    var p1 := ForkAt(c.onLeft, t, parent, c.red, sib1);
    Paint(parent, false, c.up, p1, head.root, ns, s);
    Down(c.up, p1.(red := false), parent, head.root, ns, s, true);
    var d := Frame(c.up, true, parent, false, t);
    Look(d, sib1, parent.left, head.root, ns, s);
    Down(d, sib1, tmp, head.root, ns, s, true);
    var e := Frame(d, true, tmp, c.red, sib1.r);
    Look(e, sib1.l, tmp.left, head.root, ns, s);
    if tmp.left != null {
      Paint(tmp.left, false, e, sib1.l, head.root, ns, s);
    }
    Up(e, sib1.l.(red := false), tmp.left, head.root, ns, s);
    var sib2 := ForkAt(true, sib1.l.(red := false), tmp, c.red, sib1.r);
    Up(d, sib2, tmp, head.root, ns, s);
    var p2 := ForkAt(true, sib2, parent, false, t);
    var y := RotateRightAt(head, parent, c.up, p2, ns, s);
    PlugAt(c.up, Rotated(p2, true), y, head.root, ns, s);
    t' := Plug(c.up, Rotated(p2, true));
    FarChildOk(c, t);
  }

  // One turn of the loop of RB_REMOVE_COLOR for a left child; done if it leaves the loop by break.
  method LeftStep(head: Head, parent: Node, elm: Node?, ghost c: Context, ghost t: Tree, ghost ns: set<Node>,
                  ghost s: seq<Node>)
    returns (done: bool, elm': Node?, parent': Node?, ghost c': Context, ghost t': Tree)
    requires At(c, t, elm, head.root, ns, s) && Short(c, t) && !IsRed(t) && c.Frame? && c.onLeft && parent == c.n
    modifies head`root, ns
    ensures At(c', t', elm', head.root, ns, s)
    ensures if done then c' == Top && RedBlack(t')
            else Short(c', t') && parent' == ParentOf(c') && (IsRed(t') || Depth(c') < Depth(c))
  {
    hide At, Short, RedBlack;
    c', t' := c, t;
    ShortSibling(c, t);
    Look(c, t, elm, head.root, ns, s);
    LookSibling(c, t, elm, head.root, ns, s);
    var tmp := parent.right;
    if tmp.red {
      c' := LeftRedSibling(head, parent, tmp, c, t, elm, ns, s);
      ShortSibling(c', t);
      Look(c', t, elm, head.root, ns, s);
      LookSibling(c', t, elm, head.root, ns, s);
      tmp := parent.right;
    }
    if (tmp.left == null || !tmp.left.red) && (tmp.right == null || !tmp.right.red) {
      PaintSibling(tmp, true, c', t, elm, head.root, ns, s);
      BlackSiblingOk(c', t);
      Up(c'.(sib := c'.sib.(red := true)), t, elm, head.root, ns, s);
      c', t' := c'.up, ForkAt(c'.onLeft, t, c'.n, c'.red, c'.sib.(red := true));
      elm' := parent;
      Look(c', t', elm', head.root, ns, s);
      parent' := elm'.parent;
      done := false;
    } else {
      if tmp.right == null || !tmp.right.red {
        c' := LeftNearChild(head, tmp, c', t, elm, ns, s);
        Look(c', t, elm, head.root, ns, s);
        tmp := parent.right;
      }
      t' := LeftFarChild(head, parent, tmp, c', t, elm, ns, s);
      done, elm', parent', c' := true, head.root, null, Top;
    }
  }

  // One turn of the loop of RB_REMOVE_COLOR for a right child; done if it leaves the loop by break.
  method RightStep(head: Head, parent: Node, elm: Node?, ghost c: Context, ghost t: Tree, ghost ns: set<Node>,
                   ghost s: seq<Node>)
    returns (done: bool, elm': Node?, parent': Node?, ghost c': Context, ghost t': Tree)
    requires At(c, t, elm, head.root, ns, s) && Short(c, t) && !IsRed(t) && c.Frame? && !c.onLeft && parent == c.n
    modifies head`root, ns
    ensures At(c', t', elm', head.root, ns, s)
    ensures if done then c' == Top && RedBlack(t')
            else Short(c', t') && parent' == ParentOf(c') && (IsRed(t') || Depth(c') < Depth(c))
  {
    hide At, Short, RedBlack;
    c', t' := c, t;
    ShortSibling(c, t);
    Look(c, t, elm, head.root, ns, s);
    LookSibling(c, t, elm, head.root, ns, s);
    var tmp := parent.left;
    if tmp.red {
      c' := RightRedSibling(head, parent, tmp, c, t, elm, ns, s);
      ShortSibling(c', t);
      Look(c', t, elm, head.root, ns, s);
      LookSibling(c', t, elm, head.root, ns, s);
      tmp := parent.left;
    }
    if (tmp.left == null || !tmp.left.red) && (tmp.right == null || !tmp.right.red) {
      PaintSibling(tmp, true, c', t, elm, head.root, ns, s);
      BlackSiblingOk(c', t);
      Up(c'.(sib := c'.sib.(red := true)), t, elm, head.root, ns, s);
      c', t' := c'.up, ForkAt(c'.onLeft, t, c'.n, c'.red, c'.sib.(red := true));
      elm' := parent;
      Look(c', t', elm', head.root, ns, s);
      parent' := elm'.parent;
      done := false;
    } else {
      if tmp.left == null || !tmp.left.red {
        c' := RightNearChild(head, tmp, c', t, elm, ns, s);
        Look(c', t, elm, head.root, ns, s);
        tmp := parent.left;
      }
      t' := RightFarChild(head, parent, tmp, c', t, elm, ns, s);
      done, elm', parent', c' := true, head.root, null, Top;
    }
  }

  // RB_REMOVE_COLOR
  method RemoveColor(head: Head, parent0: Node?, elm0: Node?, ghost c0: Context, ghost t0: Tree, ghost ns: set<Node>,
                     ghost s: seq<Node>)
    returns (ghost t': Tree)
    requires At(c0, t0, elm0, head.root, ns, s) && Short(c0, t0) && parent0 == ParentOf(c0)
    modifies head`root, ns
    ensures At(Top, t', head.root, head.root, ns, s) && RedBlack(t')
  {
    hide At, Short, RedBlack;
    var parent, elm := parent0, elm0;
    ghost var c, t := c0, t0;
    var done := false;
    Look(c, t, elm, head.root, ns, s);
    while (elm == null || !elm.red) && elm != head.root
      invariant At(c, t, elm, head.root, ns, s) && elm == RootOf(t) && (t.Fork? ==> elm.red == t.red)
      invariant c.Top? <==> elm == head.root
      invariant Short(c, t) && parent == ParentOf(c)
      decreases if IsRed(t) then 0 else 1 + Depth(c)
    {
      Look(c, t, elm, head.root, ns, s);
      if parent.left == elm {
        SideOf(c, t);
        done, elm, parent, c, t := LeftStep(head, parent, elm, c, t, ns, s);
      } else {
        done, elm, parent, c, t := RightStep(head, parent, elm, c, t, ns, s);
      }
      Look(c, t, elm, head.root, ns, s);
      if done {
        break;
      }
    }
    t' := Blacken(head, elm, c, t, ns, s);
  }

  lemma SideOf(c: Context, t: Tree)
    requires Short(c, t) && c.Frame?
    ensures c.sib.Fork?
  {
  }

  // The last statement of RB_REMOVE_COLOR.
  method Blacken(head: Head, elm: Node?, ghost c: Context, ghost t: Tree, ghost ns: set<Node>, ghost s: seq<Node>)
    returns (ghost t': Tree)
    requires At(c, t, elm, head.root, ns, s)
    requires (Short(c, t) && (IsRed(t) || c.Top?)) || (c.Top? && RedBlack(t))
    modifies ns
    ensures At(Top, t', head.root, head.root, ns, s) && RedBlack(t')
  {
    hide At;
    Look(c, t, elm, head.root, ns, s);
    if elm != null {
      Paint(elm, false, c, t, head.root, ns, s);
    }
    t' := Plug(c, Blackened(t));
    PlugAt(c, Blackened(t), elm, head.root, ns, s);
    BlackenedOk(c, t);
  }

  lemma BlackenedOk(c: Context, t: Tree)
    requires (Short(c, t) && (IsRed(t) || c.Top?)) || (c.Top? && RedBlack(t))
    ensures RedBlack(Plug(c, Blackened(t)))
  {
    if c.Frame? {
      PlugOk(c, Blackened(t));
    }
  }

  // ----- removal: links -----

  // As in a red-black tree, around the hole and in it.
  ghost predicate Fine(c: Context, t: Tree) {
    Balanced(t) && NoRedRed(t) && ContextOk(c, BlackHeight(t)) && (IsRed(t) ==> c.Frame? && !c.red)
  }

  lemma FineDown(c: Context, t: Tree, left: bool)
    requires Fine(c, t) && t.Fork?
    ensures Fine(Frame(c, left, t.n, t.red, Arm(t, !left)), Arm(t, left))
  {
    ArmsOk(t);
  }

  // Where elm is.
  lemma {:induction false} Locate(c: Context, t: Tree, p: Node?, root: Node?, ns: set<Node>, s: seq<Node>, elm: Node)
    returns (c': Context, t': Tree)
    requires At(c, t, p, root, ns, s) && Fine(c, t) && elm in Nodes(t)
    ensures At(c', t', elm, root, ns, s) && Fine(c', t') && t'.Fork?
    decreases t
  {
    hide At, Fine;
    Look(c, t, p, root, ns, s);
    if t.n == elm {
      return c, t;
    }
    var left := elm in Nodes(t.l);
    Down(c, t, p, root, ns, s, left);
    FineDown(c, t, left);
    c', t' := Locate(Frame(c, left, t.n, t.red, Arm(t, !left)), Arm(t, left), Link(t.n, left), root, ns, s, elm);
  }

  // What is left of t without its root, if that has at most one child.
  ghost function OnlyArm(t: Tree): Tree
    requires t.Fork?
  {
    if t.l.Leaf? then t.r else t.l
  }

  method SpliceLinks(head: Head, elm: Node, child: Node?, parent: Node?)
    requires elm != child && elm != parent && (child == null || child != parent)
    modifies head`root, Maybe(child)`parent, Maybe(parent)`left, Maybe(parent)`right
    ensures child != null ==> child.parent == parent
    ensures parent == null ==> head.root == child
    ensures parent != null ==>
      && head.root == old(head.root)
      && if elm == old(parent.left) then parent.left == child && parent.right == old(parent.right)
         else parent.right == child && parent.left == old(parent.left)
  {
    if child != null {
      child.parent := parent;
    }
    if parent != null {
      if parent.left == elm {
        parent.left := child;
      } else {
        parent.right := child;
      }
    } else {
      head.root := child;
    }
  }

  // Takes elm, which has at most one child, out of the tree.
  method Splice(head: Head, elm: Node, child: Node?, parent: Node?, ghost c: Context, ghost t: Tree,
                ghost ns: set<Node>, ghost s: seq<Node>)
    requires At(c, t, elm, head.root, ns, s) && t.Fork? && (t.l.Leaf? || t.r.Leaf?)
    requires child == RootOf(OnlyArm(t)) && parent == ParentOf(c)
    modifies head`root, ns - {elm}
    ensures At(c, OnlyArm(t), child, head.root, ns - {elm}, Order(c, OnlyArm(t)))
  {
    hide At, Linked, Around, Nodes, ContextNodes, Apart, Order;
    Look(c, t, elm, head.root, ns, s);
    HoleParts(c, t, elm, head.root, ns, s);
    TreeParts(c, t, elm, head.root, ns, s);
    AllocatedParts(c, t);
    AllocatedParts(c, OnlyArm(t));
    SpliceLinks(head, elm, child, parent);
    Spliced(c, t, child, head.root, ns, s);
  }

  // What is linked in t and in its only arm, and that it is not in other places.
  lemma TreeParts(c: Context, t: Tree, p: Node?, root: Node?, ns: set<Node>, s: seq<Node>)
    requires At(c, t, p, root, ns, s) && t.Fork? && (t.l.Leaf? || t.r.Leaf?)
    ensures SplicedSets(c, t, ns)
    ensures
      var x := OnlyArm(t);
      x.Fork? ==>
        && x.n in ns && x.n != t.n && x.n != ParentOf(c) && x.n.red == x.red
        && Linked(x.l, x.n.left, x.n) && Linked(x.r, x.n.right, x.n)
        && (forall n :: n in Nodes(x.l) || n in Nodes(x.r) ==> n != x.n && n != ParentOf(c))
        && (c.Frame? ==> x.n !in Nodes(c.sib) && x.n !in ContextNodes(c.up))
    ensures p != ParentOf(c)
  {
    var x := OnlyArm(t);
    assert Linked(x, if t.l.Leaf? then p.right else p.left, p);
  }

  // The nodes left when the root of t is taken out, which are in different parts.
  ghost predicate SplicedSets(c: Context, t: Tree, ns: set<Node>)
    requires t.Fork?
  {
    && ns - {t.n} == ContextNodes(c) + Nodes(OnlyArm(t)) && DistinctContext(c)
    && Apart(Nodes(OnlyArm(t)), ContextNodes(c)) && DistinctFork(OnlyArm(t))
  }

  lemma Spliced(c: Context, t: Tree, child: Node?, root: Node?, ns: set<Node>, s: seq<Node>)
    requires t.Fork? && SplicedSets(c, t, ns) && child == RootOf(OnlyArm(t))
    requires
      var x := OnlyArm(t);
      x.Fork? ==>
          x.n.parent == ParentOf(c) && x.n.red == x.red && Linked(x.l, x.n.left, x.n) && Linked(x.r, x.n.right, x.n)
    requires if c.Top? then root == child else ContextLinked(c, root) && Link(c.n, c.onLeft) == child
    ensures At(c, OnlyArm(t), child, root, ns - {t.n}, Order(c, OnlyArm(t)))
  {
  }

  method SubstituteLinks(head: Head, o: Node, elm: Node)
    requires o.left != null && elm != o && elm != o.parent && elm != o.left && elm != o.right
    requires o.left != o.right && o.left != o.parent && o.left != o
    requires (o.right == null || (o.right != o.parent && o.right != o)) && o.parent != o
    modifies head`root, elm, Maybe(o.parent)`left, Maybe(o.parent)`right, o.left`parent, Maybe(o.right)`parent
    ensures elm.left == o.left && elm.right == o.right && elm.parent == o.parent && elm.red == o.red
    ensures o.left == old(o.left) && o.right == old(o.right) && o.parent == old(o.parent) && o.red == old(o.red)
    ensures o.left.parent == elm && (o.right != null ==> o.right.parent == elm)
    ensures o.parent == null ==> head.root == elm
    ensures o.parent != null ==>
      && head.root == old(head.root)
      && if o == old(o.parent.left) then o.parent.left == elm && o.parent.right == old(o.parent.right)
         else o.parent.right == elm && o.parent.left == old(o.parent.left)
  {
    elm.left, elm.right, elm.parent, elm.red := o.left, o.right, o.parent, o.red;
    if o.parent != null {
      if o.parent.left == o {
        o.parent.left := elm;
      } else {
        o.parent.right := elm;
      }
    } else {
      head.root := elm;
    }
    o.left.parent := elm;
    if o.right != null {
      o.right.parent := elm;
    }
  }

  // elm, which is not in the tree, takes the place of o, which has a left child.
  method Substitute(head: Head, o: Node, elm: Node, ghost c: Context, ghost t: Tree, ghost ns: set<Node>,
                    ghost s: seq<Node>)
    requires At(c, t, o, head.root, ns, s) && t.Fork? && t.l.Fork? && elm !in ns
    modifies head`root, ns, elm
    ensures At(c, t.(n := elm), elm, head.root, ns - {o} + {elm}, Order(c, t.(n := elm)))
  {
    hide At, Linked, Around, Nodes, ContextNodes, Apart, Order;
    Look(c, t, o, head.root, ns, s);
    HoleParts(c, t, o, head.root, ns, s);
    BothArms(c, t, o, head.root, ns, s);
    AllocatedParts(c, t);
    AllocatedParts(c, t.l);
    AllocatedParts(c, t.r);
    SubstituteLinks(head, o, elm);
    Substituted(c, t, elm, head.root, ns, s);
  }

  ghost predicate ArmLinked(t: Tree)
    reads *
  {
    t.Fork? ==> t.n.red == t.red && Linked(t.l, t.n.left, t.n) && Linked(t.r, t.n.right, t.n)
  }

  // The nodes of x, but for its root, are not among the changed ones.
  ghost predicate ArmAvoids(x: Tree, changed: seq<Node?>)
    requires |changed| == 4
  {
    x.Fork? ==> Avoids(Nodes(x.l), changed) && Avoids(Nodes(x.r), changed)
  }

  lemma BothArms(c: Context, t: Tree, p: Node?, root: Node?, ns: set<Node>, s: seq<Node>)
    requires At(c, t, p, root, ns, s) && t.Fork?
    ensures ArmLinked(t.l) && ArmLinked(t.r) && SubstitutedSets(c, t, ns)
    ensures
      var changed := [ParentOf(c), RootOf(t.l), RootOf(t.r), t.n];
      && ArmAvoids(t.l, changed) && ArmAvoids(t.r, changed)
      && (c.Frame? ==> RootOf(t.l) !in Nodes(c.sib) && RootOf(t.l) !in ContextNodes(c.up) &&
                       RootOf(t.r) !in Nodes(c.sib) && RootOf(t.r) !in ContextNodes(c.up))
    ensures p != ParentOf(c)
    ensures t.l.Fork? ==> t.l.n in ns && t.l.n != p && t.l.n != ParentOf(c) && t.l.n != RootOf(t.r)
    ensures t.r.Fork? ==> t.r.n in ns && t.r.n != p && t.r.n != ParentOf(c)
    ensures forall n :: n in Nodes(t.l) || n in Nodes(t.r) ==> n in ns
    ensures t.l.Fork? ==> forall n :: n in Nodes(t.l.l) || n in Nodes(t.l.r) ==> n in ns
    ensures t.r.Fork? ==> forall n :: n in Nodes(t.r.l) || n in Nodes(t.r.r) ==> n in ns
  {
    assert Linked(t.l, p.left, p) && Linked(t.r, p.right, p);
  }

  ghost predicate SubstitutedSets(c: Context, t: Tree, ns: set<Node>)
    requires t.Fork?
  {
    && ns == ContextNodes(c) + Nodes(t) && DistinctContext(c) && Apart(Nodes(t), ContextNodes(c))
    && DistinctFork(t) && DistinctFork(t.l) && DistinctFork(t.r)
  }

  lemma Substituted(c: Context, t: Tree, elm: Node, root: Node?, ns: set<Node>, s: seq<Node>)
    requires t.Fork? && SubstitutedSets(c, t, ns) && elm !in ns
    requires ArmLinked(t.l) && ArmLinked(t.r)
    requires elm.parent == ParentOf(c) && elm.red == t.red && elm.left == RootOf(t.l) && elm.right == RootOf(t.r)
    requires (t.l.Fork? ==> t.l.n.parent == elm) && (t.r.Fork? ==> t.r.n.parent == elm)
    requires if c.Top? then root == elm else ContextLinked(c, root) && Link(c.n, c.onLeft) == elm
    ensures At(c, t.(n := elm), elm, root, ns - {t.n} + {elm}, Order(c, t.(n := elm)))
  {
    assert Linked(t.l, elm.left, elm) && Linked(t.r, elm.right, elm);
    SubstitutedNodes(c, t, elm, ns);
    hide Nodes, ContextNodes;
    assert Linked(t.(n := elm), elm, ParentOf(c));
    assert Around(c, elm, root);
  }

  lemma SubstitutedNodes(c: Context, t: Tree, elm: Node, ns: set<Node>)
    requires t.Fork? && SubstitutedSets(c, t, ns) && elm !in ns
    ensures ContextNodes(c) + Nodes(t.(n := elm)) == ns - {t.n} + {elm} && Apart(Nodes(t.(n := elm)), ContextNodes(c))
    ensures elm !in Nodes(t.l) && elm !in Nodes(t.r)
  {
  }

  // ----- removal -----

  // c with base around it.
  ghost function Append(c: Context, base: Context): Context {
    if c.Top? then base else c.(up := Append(c.up, base))
  }

  lemma {:induction false} UpAll(c: Context, base: Context, t: Tree, p: Node?, root: Node?, ns: set<Node>, s: seq<Node>)
    requires At(Append(c, base), t, p, root, ns, s)
    ensures At(base, Plug(c, t), RootOf(Plug(c, t)), root, ns, s)
  {
    hide At;
    Look(Append(c, base), t, p, root, ns, s);
    if c.Frame? {
      Up(Append(c, base), t, p, root, ns, s);
      UpAll(c.up, base, ForkAt(c.onLeft, t, c.n, c.red, c.sib), c.n, root, ns, s);
    }
  }

  lemma {:induction false} DownAll(c: Context, base: Context, t: Tree, p: Node?, root: Node?, ns: set<Node>,
                                   s: seq<Node>)
    requires At(base, Plug(c, t), p, root, ns, s)
    ensures At(Append(c, base), t, RootOf(t), root, ns, s)
  {
    hide At;
    if c.Frame? {
      var f := ForkAt(c.onLeft, t, c.n, c.red, c.sib);
      DownAll(c.up, base, f, p, root, ns, s);
      Down(Append(c.up, base), f, c.n, root, ns, s, c.onLeft);
      Look(Append(c, base), t, Link(c.n, c.onLeft), root, ns, s);
    } else {
      Look(base, t, p, root, ns, s);
    }
  }

  ghost predicate LeftSpine(c: Context) { c.Frame? ==> c.onLeft && LeftSpine(c.up) }

  lemma {:induction false} LeftSpineFirst(c: Context)
    requires LeftSpine(c)
    ensures Before(c) == []
  {
    if c.Frame? {
      LeftSpineFirst(c.up);
    }
  }

  // x takes the place of a tree whose root, red or black, is gone.
  ghost predicate Gap(c: Context, x: Tree, red: bool) {
    if red then Fine(c, x) && !IsRed(x) else Short(c, x)
  }

  lemma GapOf(c: Context, t: Tree)
    requires Fine(c, t) && t.Fork? && (t.l.Leaf? || t.r.Leaf?)
    ensures Gap(c, OnlyArm(t), t.red)
  {
    ArmsOk(t);
    assert BlackHeight(t.l) == BlackHeight(Arm(t, true)) && BlackHeight(t.r) == BlackHeight(Arm(t, false));
    var x := OnlyArm(t);
    if x.Fork? {
      ArmsOk(x);
    }
  }

  lemma {:induction false} GapMoves(c: Context, up: Context, o: Node, elm: Node, red: bool, l: Tree, h: nat)
    requires ContextOk(Append(c, Frame(up, false, o, red, l)), h)
    ensures ContextOk(Append(c, Frame(up, false, elm, red, l)), h)
  {
    if c.Frame? {
      GapMoves(c.up, up, o, elm, red, l, h + if c.red then 0 else 1);
    }
  }

  ghost function Without(s: seq<Node>, k: nat): seq<Node>
    requires k < |s|
  {
    s[..k] + s[k + 1..]
  }

  ghost predicate Removes(s: seq<Node>, n: Node, s': seq<Node>) {
    exists k :: 0 <= k < |s| && s[k] == n && s' == Without(s, k)
  }

  lemma RemovesMiddle(b: seq<Node>, n: Node, a: seq<Node>)
    ensures Removes(b + [n] + a, n, b + a)
  {
    var s := b + [n] + a;
    assert s[|b|] == n && Without(s, |b|) == b + a;
  }

  lemma SpliceRemoves(c: Context, t: Tree)
    requires t.Fork? && (t.l.Leaf? || t.r.Leaf?)
    ensures Removes(Order(c, t), t.n, Order(c, OnlyArm(t)))
  {
    var b, l, r, a := Before(c), InOrder(t.l), InOrder(t.r), After(c);
    hide Removes;
    RemovesMiddle(b + l, t.n, r + a);
    OneArm(b, l, [t.n], r, a);
  }

  lemma OneArm(b: seq<Node>, l: seq<Node>, e: seq<Node>, r: seq<Node>, a: seq<Node>)
    ensures b + (l + e + r) + a == (b + l) + e + (r + a)
    ensures l == [] ==> b + l + (r + a) == b + r + a
    ensures r == [] ==> b + l + (r + a) == b + l + a
  {
  }

  lemma SuccessorFirst(d: Context, m: Tree)
    requires LeftSpine(d) && m.Fork? && m.l.Leaf?
    ensures InOrder(Plug(d, m)) == [m.n] + InOrder(Plug(d, m.r))
  {
    LeftSpineFirst(d);
    PlugOrder(d, m);
    PlugOrder(d, m.r);
    assert InOrder(m) == [] + [m.n] + InOrder(m.r);
    FirstOut([m.n], InOrder(m.r), After(d));
  }

  lemma FirstOut(e: seq<Node>, x: seq<Node>, a: seq<Node>)
    ensures [] + ([] + e + x) + a == e + ([] + x + a)
  {
  }

  lemma Regroup(b: seq<Node>, l: seq<Node>, o: seq<Node>, e: seq<Node>, x: seq<Node>, a: seq<Node>)
    ensures b + (l + o + (e + x)) + a == (b + l) + o + (e + x + a)
    ensures b + (l + e + x) + a == (b + l) + (e + x + a)
  {
  }

  lemma SuccessorRemoves(c: Context, t: Tree, d: Context, m: Tree)
    requires t.Fork? && LeftSpine(d) && t.r == Plug(d, m) && m.Fork? && m.l.Leaf?
    ensures Removes(Order(c, t), t.n, Order(c, Fork(t.l, m.n, t.red, Plug(d, m.r))))
  {
    hide Removes, Plug, Before, After;
    SuccessorFirst(d, m);
    var b, l, x, a, e := Before(c), InOrder(t.l), InOrder(Plug(d, m.r)), After(c), [m.n];
    RemovesMiddle(b + l, t.n, e + x + a);
    Regroup(b, l, [t.n], e, x, a);
  }

  // The part of RB_REMOVE for a node o with two children: its successor is taken out, and takes its place.
  method RemoveInner(head: Head, o: Node, ghost c0: Context, ghost t0: Tree, ghost ns: set<Node>, ghost s: seq<Node>)
    returns (child: Node?, parent: Node?, red: bool, ghost c': Context, ghost x: Tree, ghost s': seq<Node>)
    requires At(c0, t0, o, head.root, ns, s) && Fine(c0, t0) && t0.Fork? && t0.l.Fork? && t0.r.Fork?
    modifies head`root, ns
    ensures At(c', x, child, head.root, ns - {o}, s') && Gap(c', x, red) && parent == ParentOf(c') && Removes(s, o, s')
  {
    hide At, Fine, Gap, Removes, ContextOk, Order;
    OrderIs(c0, t0, o, head.root, ns, s);
    Look(c0, t0, o, head.root, ns, s);
    ghost var base := Frame(c0, false, o, t0.red, t0.l);
    Down(c0, t0, o, head.root, ns, s, false);
    FineDown(c0, t0, false);
    ghost var d, m := Top, t0.r;
    var elm := o.right;
    Look(base, m, elm, head.root, ns, s);
    var left := elm.left;
    while left != null
      invariant At(Append(d, base), m, elm, head.root, ns, s) && Fine(Append(d, base), m) && LeftSpine(d)
      invariant t0.r == Plug(d, m)
      invariant m.Fork? && elm == m.n && left == RootOf(m.l) && elm in ns
      decreases m
      modifies {}
    {
      Down(Append(d, base), m, elm, head.root, ns, s, true);
      FineDown(Append(d, base), m, true);
      d, m := Frame(d, true, m.n, m.red, m.r), m.l;
      Look(Append(d, base), m, elm.left, head.root, ns, s);
      elm := left;
      Look(Append(d, base), m, elm, head.root, ns, s);
      left := elm.left;
    }
    Look(Append(d, base), m, elm, head.root, ns, s);
    child := elm.right;
    parent := elm.parent;
    red := elm.red;
    GapOf(Append(d, base), m);
    NotAbove(d, base, m, elm, head.root, ns, s);
    Splice(head, elm, child, parent, Append(d, base), m, ns, s);
    if elm.parent == o {
      parent := elm;
    }
    c', s' := Rejoin(head, o, elm, child, c0, t0, d, m, ns, s);
    x := m.r;
    GapStays(d, c0, o, elm, t0.red, t0.l, x, red);
  }

  lemma {:induction false} BaseIn(c: Context, base: Context)
    requires base.Frame?
    ensures Append(c, base).Frame? && base.n in ContextNodes(Append(c, base))
  {
    if c.Frame? {
      BaseIn(c.up, base);
    }
  }

  // The nodes at the hole and just above it are not that of base.
  lemma NotAbove(d: Context, base: Context, t: Tree, p: Node?, root: Node?, ns: set<Node>, s: seq<Node>)
    requires base.Frame? && At(Append(d, base), t, p, root, ns, s) && t.Fork?
    ensures t.n != base.n && (d.Frame? ==> d.n != base.n)
  {
    BaseIn(d, base);
    if d.Frame? {
      BaseIn(d.up, base);
    }
  }

  lemma GapStays(d: Context, up: Context, o: Node, elm: Node, red: bool, l: Tree, x: Tree, black: bool)
    requires Gap(Append(d, Frame(up, false, o, red, l)), x, black)
    ensures Gap(Append(d, Frame(up, false, elm, red, l)), x, black)
  {
    GapMoves(d, up, o, elm, red, l, if black then BlackHeight(x) else BlackHeight(x) + 1);
  }

  // The second half: elm, already out, takes the place of o.
  method Rejoin(head: Head, o: Node, elm: Node, child: Node?, ghost c0: Context, ghost t0: Tree, ghost d: Context,
                ghost m: Tree,
                ghost ns: set<Node>, ghost s: seq<Node>)
    returns (ghost c': Context, ghost s': seq<Node>)
    requires t0.Fork? && t0.l.Fork? && m.Fork? && m.l.Leaf? && m.n == elm && t0.r == Plug(d, m) && LeftSpine(d)
    requires t0.n == o
    requires elm in ns && elm != o && s == Order(c0, t0)
    requires
      var c := Append(d, Frame(c0, false, o, t0.red, t0.l));
      At(c, m.r, child, head.root, ns - {elm}, Order(c, m.r))
    modifies head`root, ns
    ensures c' == Append(d, Frame(c0, false, elm, t0.red, t0.l))
    ensures At(c', m.r, child, head.root, ns - {o}, s') && Removes(s, o, s')
  {
    hide At, Removes, Order;
    ghost var base := Frame(c0, false, o, t0.red, t0.l);
    ghost var ns1, s1, r := ns - {elm}, Order(Append(d, base), m.r), Plug(d, m.r);
    Look(Append(d, base), m.r, child, head.root, ns1, s1);
    UpAll(d, base, m.r, child, head.root, ns1, s1);
    Up(base, r, RootOf(r), head.root, ns1, s1);
    var t1 := Fork(t0.l, o, t0.red, r);
    Substitute(head, o, elm, c0, t1, ns1, s1);
    var t2 := Fork(t0.l, elm, t0.red, r);
    s' := Order(c0, t2);
    assert ns1 - {o} + {elm} == ns - {o};
    Down(c0, t2, elm, head.root, ns - {o}, s', false);
    c' := Append(d, Frame(c0, false, elm, t0.red, t0.l));
    DownAll(d, Frame(c0, false, elm, t0.red, t0.l), m.r, elm.right, head.root, ns - {o}, s');
    SuccessorRemoves(c0, t0, d, m);
  }

  lemma WithoutAt(s: seq<Node>, k: nat, i: nat)
    requires k < |s| && i + 1 < |s|
    ensures |Without(s, k)| + 1 == |s| && Without(s, k)[i] == s[if i < k then i else i + 1]
  {
  }

  lemma SortedWithout(cmp: Comparison, s: seq<Node>, n: Node, s': seq<Node>)
    requires Sorted(cmp, s) && Removes(s, n, s')
    ensures Sorted(cmp, s')
  {
    var k :| 0 <= k < |s| && s[k] == n && s' == Without(s, k);
    hide Without, Removes;
    forall i, j | 0 <= i < j < |s'| ensures cmp(s'[i].key, s'[j].key) < 0 {
      WithoutLength(s, k);
      WithoutAt(s, k, i);
      WithoutAt(s, k, j);
    }
  }

  lemma WithoutLength(s: seq<Node>, k: nat)
    requires k < |s|
    ensures |Without(s, k)| + 1 == |s|
  {
  }

  // RB_REMOVE
  method Remove(head: Head, elm: Node, cmp: Comparison) returns (r: Node)
    requires Ordering(cmp) && Valid(head, cmp) && elm in Nodes(head.tree)
    modifies head, Nodes(head.tree)
    ensures Valid(head, cmp) && r == elm
    ensures Nodes(head.tree) == old(Nodes(head.tree)) - {elm}
    ensures Removes(old(InOrder(head.tree)), elm, InOrder(head.tree))
  {
    hide At, Fine, Gap, Removes, Sorted, RedBlack, Nodes, InOrder;
    ghost var ns, s := Nodes(head.tree), InOrder(head.tree);
    FineTop(head.tree);
    ghost var c, t := Locate(Top, head.tree, head.root, head.root, ns, s, elm);
    Look(c, t, elm, head.root, ns, s);
    var child: Node?, parent: Node?, red: bool;
    ghost var c', x, s';
    if elm.left != null && elm.right != null {
      child, parent, red, c', x, s' := RemoveInner(head, elm, c, t, ns, s);
    } else {
      child := if elm.left == null then elm.right else elm.left;
      parent := elm.parent;
      red := elm.red;
      OrderIs(c, t, elm, head.root, ns, s);
      Splice(head, elm, child, parent, c, t, ns, s);
      GapOf(c, t);
      SpliceRemoves(c, t);
      c', x, s' := c, OnlyArm(t), Order(c, OnlyArm(t));
    }
    head.tree := Mend(head, child, parent, red, c', x, ns - {elm}, s');
    TreeAt(head.tree, head.root, ns - {elm}, s');
    SortedWithout(cmp, s, elm, s');
    return elm;
  }

  lemma FineTop(t: Tree)
    requires RedBlack(t)
    ensures Fine(Top, t)
  {
  }

  lemma OrderIs(c: Context, t: Tree, p: Node?, root: Node?, ns: set<Node>, s: seq<Node>)
    requires At(c, t, p, root, ns, s)
    ensures s == Order(c, t)
  {
  }

  // The last part of RB_REMOVE.
  method Mend(head: Head, child: Node?, parent: Node?, red: bool, ghost c: Context, ghost x: Tree, ghost ns: set<Node>,
              ghost s: seq<Node>)
    returns (ghost t': Tree)
    requires At(c, x, child, head.root, ns, s) && Gap(c, x, red) && parent == ParentOf(c)
    modifies head`root, ns
    ensures At(Top, t', head.root, head.root, ns, s) && RedBlack(t')
  {
    hide At;
    if !red {
      t' := RemoveColor(head, parent, child, c, x, ns, s);
    } else {
      t' := Plug(c, x);
      PlugAt(c, x, child, head.root, ns, s);
      PlugOk(c, x);
    }
  }
}
