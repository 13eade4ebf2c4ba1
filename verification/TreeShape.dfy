/** Linked binary tree nodes, the trees that they form, and trees with a hole. */
module TreeShape {
  // RB_ENTRY; the key stands for what the comparison of the tree looks at.
  class Node {
    const key: int
    var left: Node?
    var right: Node?
    var parent: Node?
    var red: bool

    constructor (key: int)
      ensures this.key == key
    {
      this.key := key;
      left, right, parent := null, null, null;
    }
  }

  datatype Tree = Leaf | Fork(l: Tree, n: Node, red: bool, r: Tree)

  // A tree with a hole: the hole is the left or the right child of n, whose other child is sib.
  datatype Context = Top | Frame(up: Context, onLeft: bool, n: Node, red: bool, sib: Tree)

  // RB_HEAD, and the tree that it is the root of.
  class Head {
    var root: Node?
    ghost var tree: Tree

    constructor ()
      ensures root == null && tree == Leaf
    {
      root, tree := null, Leaf;
    }
  }

  ghost function Nodes(t: Tree): set<Node> {
    match t
    case Leaf => {}
    case Fork(l, n, _, r) => Nodes(l) + {n} + Nodes(r)
  }

  ghost function ContextNodes(c: Context): set<Node> {
    match c
    case Top => {}
    case Frame(up, _, n, _, sib) => ContextNodes(up) + {n} + Nodes(sib)
  }

  ghost function RootOf(t: Tree): Node? { if t.Fork? then t.n else null }
  ghost function ParentOf(c: Context): Node? { if c.Frame? then c.n else null }

  ghost function InOrder(t: Tree): seq<Node> {
    match t
    case Leaf => []
    case Fork(l, n, _, r) => InOrder(l) + [n] + InOrder(r)
  }

  // The nodes in order before the hole, and after it.
  ghost function Before(c: Context): seq<Node> {
    match c
    case Top => []
    case Frame(up, onLeft, n, _, sib) => if onLeft then Before(up) else Before(up) + InOrder(sib) + [n]
  }

  ghost function After(c: Context): seq<Node> {
    match c
    case Top => []
    case Frame(up, onLeft, n, _, sib) => if onLeft then [n] + InOrder(sib) + After(up) else After(up)
  }

  ghost function Order(c: Context, t: Tree): seq<Node> { Before(c) + InOrder(t) + After(c) }

  // The fork at n with t on the given side and sib on the other.
  ghost function ForkAt(onLeft: bool, t: Tree, n: Node, red: bool, sib: Tree): Tree {
    if onLeft then Fork(t, n, red, sib) else Fork(sib, n, red, t)
  }

  ghost function Arm(t: Tree, left: bool): Tree
    requires t.Fork?
  {
    if left then t.l else t.r
  }

  ghost function Link(n: Node, left: bool): Node?
    reads n
  {
    if left then n.left else n.right
  }

  ghost function Plug(c: Context, t: Tree): Tree {
    match c
    case Top => t
    case Frame(up, onLeft, n, red, sib) => Plug(up, ForkAt(onLeft, t, n, red, sib))
  }

  lemma OrderUp(c: Context, t: Tree)
    requires c.Frame?
    ensures Order(c, t) == Order(c.up, ForkAt(c.onLeft, t, c.n, c.red, c.sib))
  {
    var b, i, s, a := Before(c.up), InOrder(t), InOrder(c.sib), After(c.up);
    if c.onLeft {
      assert b + i + ([c.n] + s + a) == b + (i + [c.n] + s) + a;
    } else {
      assert (b + s + [c.n]) + i + a == b + (s + [c.n] + i) + a;
    }
  }

  lemma {:induction false} PlugOrder(c: Context, t: Tree)
    ensures InOrder(Plug(c, t)) == Order(c, t)
  {
    if c.Frame? {
      OrderUp(c, t);
      PlugOrder(c.up, ForkAt(c.onLeft, t, c.n, c.red, c.sib));
    } else {
      assert [] + InOrder(t) + [] == InOrder(t);
    }
  }

  lemma {:induction false} PlugNodes(c: Context, t: Tree)
    ensures Nodes(Plug(c, t)) == ContextNodes(c) + Nodes(t)
  {
    if c.Frame? {
      PlugNodes(c.up, ForkAt(c.onLeft, t, c.n, c.red, c.sib));
    }
  }

  lemma {:induction false} InOrderNodes(t: Tree)
    ensures forall n :: n in InOrder(t) <==> n in Nodes(t)
  {
    if t.Fork? {
      InOrderNodes(t.l);
      InOrderNodes(t.r);
    }
  }

  ghost predicate Apart(s: set<Node>, t: set<Node>) { s !! t }

  // p is the root of the linked nodes of t, whose parent is as given.
  ghost predicate Linked(t: Tree, p: Node?, parent: Node?)
    reads Nodes(t)
  {
    match t
    case Leaf => p == null
    case Fork(l, n, red, r) =>
      && p == n && n.parent == parent && n.red == red
      && n !in Nodes(l) && n !in Nodes(r) && Apart(Nodes(l), Nodes(r))
      && Linked(l, n.left, n) && Linked(r, n.right, n)
  }

  // The nodes of c are linked around a hole where p is.
  ghost predicate Around(c: Context, p: Node?, root: Node?)
    reads ContextNodes(c)
  {
    match c
    case Top => root == p
    case Frame(up, onLeft, n, red, sib) =>
      && n.parent == ParentOf(up) && n.red == red
      && n !in Nodes(sib) && n !in ContextNodes(up) && Apart(Nodes(sib), ContextNodes(up))
      && Link(n, onLeft) == p && Linked(sib, Link(n, !onLeft), n)
      && Around(up, n, root)
  }

  // The nodes ns, in order s, are a tree with root root, which is t at p and c around it.
  ghost predicate At(c: Context, t: Tree, p: Node?, root: Node?, ns: set<Node>, s: seq<Node>)
    reads ns
  {
    && ns == ContextNodes(c) + Nodes(t) && s == Order(c, t)
    && Around(c, p, root) && Linked(t, p, ParentOf(c)) && Apart(Nodes(t), ContextNodes(c))
  }

  // ----- moving the hole -----

  lemma Up(c: Context, t: Tree, p: Node?, root: Node?, ns: set<Node>, s: seq<Node>)
    requires At(c, t, p, root, ns, s) && c.Frame?
    ensures At(c.up, ForkAt(c.onLeft, t, c.n, c.red, c.sib), c.n, root, ns, s)
  {
    OrderUp(c, t);
    hide Before, After, InOrder;
  }

  lemma Down(c: Context, t: Tree, p: Node?, root: Node?, ns: set<Node>, s: seq<Node>, left: bool)
    requires At(c, t, p, root, ns, s) && t.Fork?
    ensures p == t.n && At(Frame(c, left, t.n, t.red, Arm(t, !left)), Arm(t, left), Link(t.n, left), root, ns, s)
  {
    OrderUp(Frame(c, left, t.n, t.red, Arm(t, !left)), Arm(t, left));
    hide Before, After, InOrder;
  }

  lemma {:induction false} PlugAt(c: Context, t: Tree, p: Node?, root: Node?, ns: set<Node>, s: seq<Node>)
    requires At(c, t, p, root, ns, s)
    ensures At(Top, Plug(c, t), root, root, ns, s)
  {
    if c.Frame? {
      Up(c, t, p, root, ns, s);
      PlugAt(c.up, ForkAt(c.onLeft, t, c.n, c.red, c.sib), c.n, root, ns, s);
    }
  }

  // What the fields around the hole are.
  lemma Look(c: Context, t: Tree, p: Node?, root: Node?, ns: set<Node>, s: seq<Node>)
    requires At(c, t, p, root, ns, s)
    ensures p == RootOf(t) && (p == root ==> c.Top?)
    ensures t.Fork? ==>
      p in ns && p.parent == ParentOf(c) && p.red == t.red && p.left == RootOf(t.l) && p.right == RootOf(t.r)
    ensures c.Frame? ==>
      && c.n in ns && Link(c.n, c.onLeft) == p && Link(c.n, !c.onLeft) == RootOf(c.sib) && c.n.red == c.red
      && c.n.parent == ParentOf(c.up) && (RootOf(c.sib) == p ==> p == null) && (c.sib.Fork? ==> c.sib.n in ns)
    ensures c.Top? ==> root == p
  {
    if c.Frame? {
      RootAround(c, p, root);
    }
    if t.Fork? {
      assert Linked(t.l, p.left, p) && Linked(t.r, p.right, p);
    }
  }

  ghost predicate DistinctContext(c: Context) {
    c.Frame? ==> c.n !in Nodes(c.sib) && c.n !in ContextNodes(c.up) && Apart(Nodes(c.sib), ContextNodes(c.up))
  }

  // What is linked around the hole, but for the link to it.
  ghost predicate ContextLinked(c: Context, root: Node?)
    requires c.Frame?
    reads *
  {
    && c.n in ContextNodes(c) && Around(c.up, c.n, root) && c.n.parent == ParentOf(c.up) && c.n.red == c.red
    && Linked(c.sib, Link(c.n, !c.onLeft), c.n)
  }

  lemma HoleParts(c: Context, t: Tree, p: Node?, root: Node?, ns: set<Node>, s: seq<Node>)
    requires At(c, t, p, root, ns, s)
    ensures DistinctContext(c) && (c.Frame? ==> ContextLinked(c, root))
    ensures c.Frame? ==> forall n :: n in Nodes(c.sib) || n in ContextNodes(c.up) ==> n in ns && n != c.n
    ensures t.Leaf? ==> ns == ContextNodes(c)
  {
  }

  lemma {:induction false} RootAround(c: Context, p: Node?, root: Node?)
    requires Around(c, p, root) && c.Frame?
    ensures root != null && root in ContextNodes(c)
  {
    if c.up.Frame? {
      RootAround(c.up, c.n, root);
    }
  }

  // ----- changing links and colors -----

  function Maybe(n: Node?): set<Node> { if n == null then {} else {n} }

  // RB_ROTATE_LEFT
  method RotateLeft(head: Head, elm: Node) returns (tmp: Node)
    requires elm.right != null
    requires
      var y, b, p := elm.right, elm.right.left, elm.parent;
      elm != y && elm != b && elm != p && y != b && y != p && (b != null ==> b != p)
    modifies head`root, elm, elm.right, Maybe(elm.right.left), Maybe(elm.parent)
    ensures tmp == old(elm.right)
    ensures elm.left == old(elm.left) && elm.right == old(tmp.left) && elm.parent == tmp && elm.red == old(elm.red)
    ensures tmp.left == elm && tmp.right == old(tmp.right) && tmp.parent == old(elm.parent) && tmp.red == old(tmp.red)
    ensures
      var b := elm.right;
      b != null ==> b.parent == elm && b.left == old(b.left) && b.right == old(b.right) && b.red == old(b.red)
    ensures
      var p := tmp.parent;
      if p == null then head.root == tmp else
        && head.root == old(head.root) && p.parent == old(p.parent) && p.red == old(p.red)
        && (if elm == old(p.left) then p.left == tmp && p.right == old(p.right)
           else p.left == old(p.left) && p.right == tmp)
  {
    tmp := elm.right;
    elm.right := tmp.left;
    if elm.right != null {
      tmp.left.parent := elm;
    }
    tmp.parent := elm.parent;
    if tmp.parent != null {
      if elm == elm.parent.left {
        elm.parent.left := tmp;
      } else {
        elm.parent.right := tmp;
      }
    } else {
      head.root := tmp;
    }
    tmp.left := elm;
    elm.parent := tmp;
  }

  // RB_ROTATE_RIGHT
  method RotateRight(head: Head, elm: Node) returns (tmp: Node)
    requires elm.left != null
    requires
      var y, b, p := elm.left, elm.left.right, elm.parent;
      elm != y && elm != b && elm != p && y != b && y != p && (b != null ==> b != p)
    modifies head`root, elm, elm.left, Maybe(elm.left.right), Maybe(elm.parent)
    ensures tmp == old(elm.left)
    ensures elm.right == old(elm.right) && elm.left == old(tmp.right) && elm.parent == tmp && elm.red == old(elm.red)
    ensures tmp.right == elm && tmp.left == old(tmp.left) && tmp.parent == old(elm.parent) && tmp.red == old(tmp.red)
    ensures
      var b := elm.left;
      b != null ==> b.parent == elm && b.left == old(b.left) && b.right == old(b.right) && b.red == old(b.red)
    ensures
      var p := tmp.parent;
      if p == null then head.root == tmp else
        && head.root == old(head.root) && p.parent == old(p.parent) && p.red == old(p.red)
        && (if elm == old(p.left) then p.left == tmp && p.right == old(p.right)
           else p.left == old(p.left) && p.right == tmp)
  {
    tmp := elm.left;
    elm.left := tmp.right;
    if elm.left != null {
      tmp.right.parent := elm;
    }
    tmp.parent := elm.parent;
    if tmp.parent != null {
      if elm == elm.parent.left {
        elm.parent.left := tmp;
      } else {
        elm.parent.right := tmp;
      }
    } else {
      head.root := tmp;
    }
    tmp.right := elm;
    elm.parent := tmp;
  }

  // t with its child on side s lifted above it.
  ghost function Rotated(t: Tree, s: bool): Tree
    requires t.Fork? && Arm(t, s).Fork?
  {
    var y := Arm(t, s);
    ForkAt(!s, ForkAt(!s, Arm(t, !s), t.n, t.red, Arm(y, !s)), y.n, y.red, Arm(y, s))
  }

  // The nodes that a rotation changes are not among those of the parts that it moves.
  ghost predicate Distinct(c: Context, t: Tree, s: bool)
    requires t.Fork? && Arm(t, s).Fork?
  {
    var y := Arm(t, s);
    var b := Arm(y, !s);
    var changed := [t.n, y.n, RootOf(b), ParentOf(c)];
    && Avoids(Nodes(Arm(t, !s)), changed) && Avoids(Nodes(Arm(y, s)), changed)
    && (b.Fork? ==> Avoids(Nodes(b.l), changed) && Avoids(Nodes(b.r), changed))
    && (c.Frame? ==> Avoids(Nodes(c.sib), changed) && Avoids(ContextNodes(c.up), changed))
    && t.n != y.n && t.n != RootOf(b) && t.n != ParentOf(c) && y.n != RootOf(b) && y.n != ParentOf(c)
    && (b.Fork? ==> b.n != ParentOf(c))
  }

  ghost predicate Avoids(s: set<Node>, changed: seq<Node?>)
    requires |changed| == 4
  {
    changed[0] !in s && changed[1] !in s && changed[2] !in s && changed[3] !in s
  }

  // The parts that a rotation moves are linked.
  ghost predicate PartsLinked(c: Context, t: Tree, s: bool, root: Node?)
    requires t.Fork? && Arm(t, s).Fork?
    reads *
  {
    var x, y := t.n, Arm(t, s);
    var b := Arm(y, !s);
    && x in Nodes(t) && y.n in Nodes(t)
    && x.red == t.red && Linked(Arm(t, !s), Link(x, !s), x) && y.n.red == y.red && Linked(Arm(y, s), Link(y.n, s), y.n)
    && (b.Fork? ==> b.n in Nodes(t) && b.n.red == b.red && Linked(b.l, b.n.left, b.n) && Linked(b.r, b.n.right, b.n))
    && (c.Frame? ==> ContextLinked(c, root))
  }

  lemma BeforeRotation(c: Context, t: Tree, x: Node, root: Node?, ns: set<Node>, s: seq<Node>, side: bool)
    requires At(c, t, x, root, ns, s) && t.Fork? && Arm(t, side).Fork?
    ensures t.n == x && PartsLinked(c, t, side, root) && Distinct(c, t, side) && ShapedFor(c, t, ns, s, side)
    ensures x.parent == ParentOf(c) && Link(x, side) == Arm(t, side).n
    ensures Link(Arm(t, side).n, !side) == RootOf(Arm(Arm(t, side), !side))
    ensures c.Frame? ==> Link(c.n, c.onLeft) == x && Link(c.n, !c.onLeft) != x
  {
    assert Linked(Arm(t, side), Link(x, side), x);
    assert Linked(Arm(Arm(t, side), !side), Link(Arm(t, side).n, !side), Arm(t, side).n);
    hide Order, Distinct;
    ShapeDistinct(c, t, ns, s, side);
  }

  lemma ShapeDistinct(c: Context, t: Tree, ns: set<Node>, s: seq<Node>, side: bool)
    requires t.Fork? && Arm(t, side).Fork? && ShapedFor(c, t, ns, s, side)
    ensures Distinct(c, t, side)
  {
    hide Order;
  }

  lemma AfterRotation(c: Context, t: Tree, x: Node, y: Node, root: Node?, ns: set<Node>, s: seq<Node>, side: bool)
    requires t.Fork? && Arm(t, side).Fork? && ShapedFor(c, t, ns, s, side)
    requires t.n == x && Arm(t, side).n == y && PartsLinked(c, t, side, root)
    requires x.parent == y && Link(x, side) == RootOf(Arm(Arm(t, side), !side))
    requires y.parent == ParentOf(c) && Link(y, !side) == x
    requires Arm(Arm(t, side), !side).Fork? ==> Arm(Arm(t, side), !side).n.parent == x
    requires if c.Top? then root == y else Link(c.n, c.onLeft) == y
    ensures At(c, Rotated(t, side), y, root, ns, s)
  {
    RotatedOrder(c, t, side);
    hide Before, After, InOrder, Order;
    RotatedNodes(t, side);
    var b := Arm(Arm(t, side), !side);
    assert Linked(b, Link(x, side), x);
    assert Linked(ForkAt(!side, Arm(t, !side), x, t.red, b), x, y);
    assert Linked(Rotated(t, side), y, ParentOf(c));
    assert Around(c, y, root);
  }

  lemma RotatedNodes(t: Tree, side: bool)
    requires t.Fork? && Arm(t, side).Fork?
    ensures Nodes(Rotated(t, side)) == Nodes(t)
  {
  }

  lemma RotatedOrder(c: Context, t: Tree, side: bool)
    requires t.Fork? && Arm(t, side).Fork?
    ensures Order(c, Rotated(t, side)) == Order(c, t)
  {
    assert InOrder(Rotated(t, side)) == InOrder(t);
  }

  // What the shape of a linked tree is like, whatever the fields are.
  ghost predicate ShapedFor(c: Context, t: Tree, ns: set<Node>, s: seq<Node>, side: bool)
    requires t.Fork? && Arm(t, side).Fork?
  {
    && ns == ContextNodes(c) + Nodes(t) && s == Order(c, t) && Apart(Nodes(t), ContextNodes(c))
    && DistinctFork(t) && DistinctFork(Arm(t, side)) && DistinctFork(Arm(Arm(t, side), !side))
    && DistinctContext(c)
  }

  ghost predicate DistinctFork(t: Tree) {
    t.Fork? ==> t.n !in Nodes(t.l) && t.n !in Nodes(t.r) && Apart(Nodes(t.l), Nodes(t.r))
  }

  lemma AllocatedParts(c: Context, t: Tree)
    ensures c.Frame? ==> allocated(Nodes(c.sib)) && allocated(ContextNodes(c.up))
    ensures t.Fork? ==> allocated(Nodes(t.l)) && allocated(Nodes(t.r))
    ensures t.Fork? && t.l.Fork? ==> allocated(Nodes(t.l.l)) && allocated(Nodes(t.l.r))
    ensures t.Fork? && t.r.Fork? ==> allocated(Nodes(t.r.l)) && allocated(Nodes(t.r.r))
    ensures t.Fork? && t.l.Fork? && t.l.r.Fork? ==> allocated(Nodes(t.l.r.l)) && allocated(Nodes(t.l.r.r))
    ensures t.Fork? && t.r.Fork? && t.r.l.Fork? ==> allocated(Nodes(t.r.l.l)) && allocated(Nodes(t.r.l.r))
  {
  }

  method RotateLeftAt(head: Head, elm: Node, ghost c: Context, ghost t: Tree, ghost ns: set<Node>, ghost s: seq<Node>)
    returns (tmp: Node)
    requires At(c, t, elm, head.root, ns, s) && t.Fork? && t.r.Fork?
    modifies head`root, ns
    ensures tmp == t.r.n && At(c, Rotated(t, false), tmp, head.root, ns, s)
  {
    hide Linked, Around, Nodes, ContextNodes, Apart, Order, DistinctFork;
    BeforeRotation(c, t, elm, head.root, ns, s, false);
    AllocatedParts(c, t);
    tmp := RotateLeft(head, elm);
    AfterRotation(c, t, elm, tmp, head.root, ns, s, false);
  }

  method RotateRightAt(head: Head, elm: Node, ghost c: Context, ghost t: Tree, ghost ns: set<Node>, ghost s: seq<Node>)
    returns (tmp: Node)
    requires At(c, t, elm, head.root, ns, s) && t.Fork? && t.l.Fork?
    modifies head`root, ns
    ensures tmp == t.l.n && At(c, Rotated(t, true), tmp, head.root, ns, s)
  {
    hide Linked, Around, Nodes, ContextNodes, Apart, Order, DistinctFork;
    BeforeRotation(c, t, elm, head.root, ns, s, true);
    AllocatedParts(c, t);
    tmp := RotateRight(head, elm);
    AfterRotation(c, t, elm, tmp, head.root, ns, s, true);
  }

  method Paint(n: Node, red: bool, ghost c: Context, ghost t: Tree, ghost root: Node?, ghost ns: set<Node>,
               ghost s: seq<Node>)
    requires At(c, t, n, root, ns, s) && t.Fork?
    modifies n`red
    ensures At(c, t.(red := red), n, root, ns, s)
  {
    assert Linked(t.l, n.left, n) && Linked(t.r, n.right, n);
    n.red := red;
    assert Linked(t.l, n.left, n) && Linked(t.r, n.right, n);
    assert InOrder(t.(red := red)) == InOrder(t) && Nodes(t.(red := red)) == Nodes(t);
  }
}
