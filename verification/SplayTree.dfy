/** The splay tree of malloclab/tree.h. */
module SplayTree {
  import opened Comparisons
  import opened SplayShape
  import opened SplayBalance

  // A tree with a hole at the end of its left spine or of its right spine: where a child of n would be, whose other
  // child is sib.
  datatype Spine = Top | Frame(up: Spine, n: Node, sib: Tree)

  // SPLAY_HEAD, and the tree that it is the root of.
  class Head {
    var root: Node?
    ghost var tree: Tree

    constructor ()
      ensures root == null && tree == Leaf
    {
      root, tree := null, Leaf;
    }
  }

  ghost function SpineNodes(c: Spine): set<Node> {
    match c
    case Top => {}
    case Frame(up, n, sib) => SpineNodes(up) + {n} + Nodes(sib)
  }

  // In order, when the hole is at the left end, or at the right end.
  ghost function SpineOrder(c: Spine, left: bool): seq<Node> {
    match c
    case Top => []
    case Frame(up, n, sib) =>
      if left then [n] + InOrder(sib) + SpineOrder(up, left) else SpineOrder(up, left) + InOrder(sib) + [n]
  }

  ghost function Plug(c: Spine, left: bool, t: Tree): Tree {
    match c
    case Top => t
    case Frame(up, n, sib) => Plug(up, left, if left then Fork(t, n, sib) else Fork(sib, n, t))
  }

  function OnSide(side: bool, n: Node): set<Node> { if side then {n} else {} }

  ghost function Link(n: Node, left: bool): Node?
    reads OnSide(left, n)`left, OnSide(!left, n)`right
  {
    if left then n.left else n.right
  }

  ghost function RootOf(t: Tree): Node? { if t.Fork? then t.n else null }

  ghost predicate Apart(s: set<Node>, t: set<Node>) { s !! t }

  // p is the root of the linked nodes of t.
  ghost predicate Linked(t: Tree, p: Node?)
    reads Nodes(t)
  {
    match t
    case Leaf => p == null
    case Fork(l, n, r) =>
      && p == n && n !in Nodes(l) && n !in Nodes(r) && Apart(Nodes(l), Nodes(r))
      && Linked(l, n.left) && Linked(r, n.right)
  }

  // The nodes of c are linked, and p is in the hole.
  ghost predicate Closed(c: Spine, left: bool, p: Node?)
    reads SpineNodes(c)
  {
    match c
    case Top => true
    case Frame(up, n, sib) =>
      && Link(n, left) == p && Linked(sib, Link(n, !left))
      && n !in Nodes(sib) && n !in SpineNodes(up) && Apart(Nodes(sib), SpineNodes(up))
      && Closed(up, left, n)
  }

  // The same but for the link in the hole, which may be anything.
  ghost predicate Open(c: Spine, left: bool)
    reads SpineNodes(c)
  {
    match c
    case Top => true
    case Frame(up, n, sib) =>
      && Linked(sib, Link(n, !left))
      && n !in Nodes(sib) && n !in SpineNodes(up) && Apart(Nodes(sib), SpineNodes(up))
      && Closed(up, left, n)
  }

  // The node that is above all others of c, or p if there is none.
  ghost function Highest(c: Spine, p: Node?): Node? {
    match c
    case Top => p
    case Frame(up, n, _) => Highest(up, n)
  }

  // c hangs from a child of node, and the link in its hole is of q.
  ghost predicate Hangs(c: Spine, left: bool, q: Node, node: Node)
    reads OnSide(left, node)`left, OnSide(!left, node)`right
  {
    if c.Top? then q == node else q == c.n && Link(node, left) == Highest(c, null)
  }

  // While splaying: t at root is still to be searched; what is below the key hangs in cl, with its hole at the right
  // end, from the right child of node, and what is above it in cr.
  ghost predicate Splaying(cl: Spine, t: Tree, cr: Spine, left: Node, root: Node?, right: Node, node: Node,
                           ns: set<Node>, s: seq<Node>)
    reads ns, node
  {
    && Shape(cl, t, cr, node, ns, s)
    && Linked(t, root) && Open(cl, false) && Open(cr, true) && Hangs(cl, false, left, node)
       && Hangs(cr, true, right, node)
  }

  // The three parts are different nodes ns, in order s together.
  ghost predicate Shape(cl: Spine, t: Tree, cr: Spine, node: Node, ns: set<Node>, s: seq<Node>) {
    && ns == SpineNodes(cl) + Nodes(t) + SpineNodes(cr)
       && s == SpineOrder(cl, false) + InOrder(t) + SpineOrder(cr, true)
    && node !in ns && Apart(SpineNodes(cl), Nodes(t)) && Apart(SpineNodes(cl), SpineNodes(cr))
       && Apart(Nodes(t), SpineNodes(cr))
  }

  ghost predicate DistinctFork(t: Tree) {
    t.Fork? ==> t.n !in Nodes(t.l) && t.n !in Nodes(t.r) && Apart(Nodes(t.l), Nodes(t.r))
  }

  lemma {:induction false} PlugLinked(c: Spine, left: bool, t: Tree, p: Node?)
    requires Closed(c, left, p) && Linked(t, p) && Apart(SpineNodes(c), Nodes(t))
    ensures Linked(Plug(c, left, t), Highest(c, p))
  {
    if c.Frame? {
      var f := if left then Fork(t, c.n, c.sib) else Fork(c.sib, c.n, t);
      assert Linked(f, c.n);
      PlugLinked(c.up, left, f, c.n);
    }
  }

  lemma {:induction false} PlugNodes(c: Spine, left: bool, t: Tree)
    ensures Nodes(Plug(c, left, t)) == SpineNodes(c) + Nodes(t)
  {
    if c.Frame? {
      PlugNodes(c.up, left, if left then Fork(t, c.n, c.sib) else Fork(c.sib, c.n, t));
    }
  }

  lemma {:induction false} PlugOrder(c: Spine, left: bool, t: Tree)
    ensures InOrder(Plug(c, left, t)) == if left then InOrder(t) + SpineOrder(c, left)
      else SpineOrder(c, left) + InOrder(t)
  {
    if c.Frame? {
      var f := if left then Fork(t, c.n, c.sib) else Fork(c.sib, c.n, t);
      PlugOrder(c.up, left, f);
      var i, s, u := InOrder(t), InOrder(c.sib), SpineOrder(c.up, left);
      hide InOrder, SpineOrder;
      AroundFrame(i, [c.n], s, u);
    }
  }

  lemma AroundFrame(i: seq<Node>, e: seq<Node>, s: seq<Node>, u: seq<Node>)
    ensures (i + e + s) + u == i + (e + s + u)
    ensures u + (s + e + i) == (u + s + e) + i
  {
  }

  // ----- steps -----

  // t with its child on the given side lifted above it.
  ghost function Rotated(t: Tree, left: bool): Tree
    requires t.Fork? && Arm(t, left).Fork?
  {
    var y := Arm(t, left);
    ForkAt(left, Arm(y, left), y.n, ForkAt(left, Arm(y, !left), t.n, Arm(t, !left)))
  }

  method RotateRightLinks(head: Head, tmp: Node)
    requires head.root != null && head.root != tmp
    modifies head`root, head.root`left, tmp`right
    ensures head.root == tmp && tmp.right == old(head.root) && old(head.root).left == old(tmp.right)
  {
    head.root.left := tmp.right;
    tmp.right := head.root;
    head.root := tmp;
  }

  method RotateLeftLinks(head: Head, tmp: Node)
    requires head.root != null && head.root != tmp
    modifies head`root, head.root`right, tmp`left
    ensures head.root == tmp && tmp.left == old(head.root) && old(head.root).right == old(tmp.left)
  {
    head.root.right := tmp.left;
    tmp.left := head.root;
    head.root := tmp;
  }

  // What t and its child on the given side are made of.
  lemma Parts(cl: Spine, t: Tree, cr: Spine, left: Node, root: Node?, right: Node, node: Node, ns: set<Node>,
              s: seq<Node>, side: bool)
    requires Splaying(cl, t, cr, left, root, right, node, ns, s) && t.Fork?
    ensures Shape(cl, t, cr, node, ns, s) && DistinctFork(t) && DistinctFork(Arm(t, side))
    ensures root == t.n && root in ns && root != node && root.left == RootOf(t.l) && root.right == RootOf(t.r)
    ensures Linked(t.l, root.left) && Linked(t.r, root.right) && Open(cl, false) && Open(cr, true)
    ensures Hangs(cl, false, left, node) && Hangs(cr, true, right, node)
    ensures root !in SpineNodes(cl) && root !in SpineNodes(cr) && root !in Nodes(t.l) && root !in Nodes(t.r)
    ensures forall n :: n in SpineNodes(cl) || n in SpineNodes(cr) || n in Nodes(t.l) || n in Nodes(t.r) ==> n in ns
    ensures
      var y := Arm(t, side);
      y.Fork? ==>
        && y.n in ns && y.n != root && y.n != node && y.n.left == RootOf(y.l) && y.n.right == RootOf(y.r)
        && Linked(y.l, y.n.left) && Linked(y.r, y.n.right)
        && y.n !in SpineNodes(cl) && y.n !in SpineNodes(cr) && y.n !in Nodes(y.l) && y.n !in Nodes(y.r)
           && y.n !in Nodes(Arm(t, !side))
        && root !in Nodes(y.l) && root !in Nodes(y.r)
  {
    LinkedParts(t, root);
    var y := Arm(t, side);
    LinkedParts(y, Link(root, side));
    hide Linked, Open, Hangs, SpineOrder, InOrder;
  }

  lemma LinkedParts(t: Tree, root: Node?)
    requires Linked(t, root)
    ensures t.Fork? ==>
      && root == t.n && root.left == RootOf(t.l) && root.right == RootOf(t.r)
      && Linked(t.l, root.left) && Linked(t.r, root.right)
      && t.n !in Nodes(t.l) && t.n !in Nodes(t.r)
  {
    if t.Fork? {
      assert Linked(t.l, root.left) && Linked(t.r, root.right);
    }
  }

  lemma AllocatedParts(cl: Spine, t: Tree, cr: Spine)
    ensures allocated(SpineNodes(cl)) && allocated(SpineNodes(cr)) && allocated(Nodes(t))
    ensures cl.Frame? ==> allocated(Nodes(cl.sib)) && allocated(SpineNodes(cl.up))
    ensures cr.Frame? ==> allocated(Nodes(cr.sib)) && allocated(SpineNodes(cr.up))
    ensures t.Fork? ==> allocated(Nodes(t.l)) && allocated(Nodes(t.r))
    ensures t.Fork? && t.l.Fork? ==> allocated(Nodes(t.l.l)) && allocated(Nodes(t.l.r))
    ensures t.Fork? && t.r.Fork? ==> allocated(Nodes(t.r.l)) && allocated(Nodes(t.r.r))
  {
  }

  lemma RotatedShape(cl: Spine, t: Tree, cr: Spine, node: Node, ns: set<Node>, s: seq<Node>, side: bool)
    requires Shape(cl, t, cr, node, ns, s) && t.Fork? && Arm(t, side).Fork? && DistinctFork(t)
    requires DistinctFork(Arm(t, side))
    ensures Shape(cl, Rotated(t, side), cr, node, ns, s)
    ensures DistinctFork(Rotated(t, side)) && DistinctFork(Arm(Rotated(t, side), !side))
  {
    RotatedSame(t, side);
    hide InOrder, SpineOrder, Nodes, SpineNodes, Rotated, DistinctFork;
  }

  lemma RotatedSame(t: Tree, side: bool)
    requires t.Fork? && Arm(t, side).Fork?
    ensures InOrder(Rotated(t, side)) == InOrder(t) && Nodes(Rotated(t, side)) == Nodes(t)
    ensures DistinctFork(t) && DistinctFork(Arm(t, side)) ==>
      DistinctFork(Rotated(t, side)) && DistinctFork(Arm(Rotated(t, side), !side))
  {
    assert InOrder(Rotated(t, side)) == InOrder(t);
    assert Nodes(Rotated(t, side)) == Nodes(t);
    hide InOrder;
  }

  lemma Turned(cl: Spine, t: Tree, cr: Spine, left: Node, root: Node, tmp: Node, right: Node, node: Node, ns: set<Node>,
               s: seq<Node>, side: bool)
    requires t.Fork? && Arm(t, side).Fork? && t.n == root && Arm(t, side).n == tmp
    requires Shape(cl, Rotated(t, side), cr, node, ns, s)
    requires DistinctFork(Rotated(t, side)) && DistinctFork(Arm(Rotated(t, side), !side))
    requires Open(cl, false) && Open(cr, true) && Hangs(cl, false, left, node) && Hangs(cr, true, right, node)
    requires Link(tmp, !side) == root
    requires Linked(Arm(t, !side), Link(root, !side)) && Linked(Arm(Arm(t, side), side), Link(tmp, side))
    requires Linked(Arm(Arm(t, side), !side), Link(root, side))
    ensures Splaying(cl, Rotated(t, side), cr, left, tmp, right, node, ns, s)
  {
    assert Linked(Arm(Rotated(t, side), !side), root);
  }

  method RotateRightAt(head: Head, tmp: Node, ghost cl: Spine, ghost t: Tree, ghost cr: Spine,
                       ghost left: Node, ghost right: Node, ghost node: Node, ghost ns: set<Node>, ghost s: seq<Node>)
    requires Splaying(cl, t, cr, left, head.root, right, node, ns, s) && t.Fork? && t.l.Fork? && tmp == t.l.n
    modifies head`root, ns
    ensures head.root == tmp && Splaying(cl, Rotated(t, true), cr, left, head.root, right, node, ns, s)
  {
    hide Linked, Open, Nodes, SpineNodes, Shape, DistinctFork, Splaying;
    ghost var root := head.root;
    Parts(cl, t, cr, left, root, right, node, ns, s, true);
    AllocatedParts(cl, t, cr);
    RotatedShape(cl, t, cr, node, ns, s, true);
    RotateRightLinks(head, tmp);
    Turned(cl, t, cr, left, root, tmp, right, node, ns, s, true);
  }

  method RotateLeftAt(head: Head, tmp: Node, ghost cl: Spine, ghost t: Tree, ghost cr: Spine,
                      ghost left: Node, ghost right: Node, ghost node: Node, ghost ns: set<Node>, ghost s: seq<Node>)
    requires Splaying(cl, t, cr, left, head.root, right, node, ns, s) && t.Fork? && t.r.Fork? && tmp == t.r.n
    modifies head`root, ns
    ensures head.root == tmp && Splaying(cl, Rotated(t, false), cr, left, head.root, right, node, ns, s)
  {
    hide Linked, Open, Nodes, SpineNodes, Shape, DistinctFork, Splaying;
    ghost var root := head.root;
    Parts(cl, t, cr, left, root, right, node, ns, s, false);
    AllocatedParts(cl, t, cr);
    RotatedShape(cl, t, cr, node, ns, s, false);
    RotateLeftLinks(head, tmp);
    Turned(cl, t, cr, left, root, tmp, right, node, ns, s, false);
  }

  // SPLAY_LINKLEFT
  method LinkLeftLinks(head: Head, tmp0: Node) returns (tmp: Node)
    requires head.root != null && head.root != tmp0
    modifies head`root, tmp0`left
    ensures tmp == old(head.root) && tmp0.left == tmp && head.root == tmp.left
  {
    tmp0.left := head.root;
    tmp := head.root;
    head.root := head.root.left;
  }

  // SPLAY_LINKRIGHT
  method LinkRightLinks(head: Head, tmp0: Node) returns (tmp: Node)
    requires head.root != null && head.root != tmp0
    modifies head`root, tmp0`right
    ensures tmp == old(head.root) && tmp0.right == tmp && head.root == tmp.right
  {
    tmp0.right := head.root;
    tmp := head.root;
    head.root := head.root.right;
  }

  method LinkLeftAt(head: Head, ghost cl: Spine, ghost t: Tree, ghost cr: Spine,
                    ghost left: Node, right: Node, ghost node: Node, ghost ns: set<Node>, ghost s: seq<Node>)
    returns (right': Node)
    requires Splaying(cl, t, cr, left, head.root, right, node, ns, s) && t.Fork?
    modifies head`root, ns, node
    ensures Splaying(cl, t.l, Frame(cr, t.n, t.r), left, head.root, right', node, ns, s)
  {
    hide Linked, Open, Closed, Nodes, SpineNodes, Shape, DistinctFork, Splaying;
    ghost var root := head.root;
    Parts(cl, t, cr, left, root, right, node, ns, s, true);
    Holders(cl, t, cr, left, root, right, node, ns, s);
    OpenParts(cr, true);
    AllocatedParts(cl, t, cr);
    LinkedShape(cl, t, cr, node, ns, s, true);
    right' := LinkLeftLinks(head, right);
    Close(cr, true, root);
    Extended(cr, true, t);
    Linking(cl, t.l, Frame(cr, t.n, t.r), left, head.root, right', node, ns, s);
  }

  method LinkRightAt(head: Head, ghost cl: Spine, ghost t: Tree, ghost cr: Spine,
                     left: Node, ghost right: Node, ghost node: Node, ghost ns: set<Node>, ghost s: seq<Node>)
    returns (left': Node)
    requires Splaying(cl, t, cr, left, head.root, right, node, ns, s) && t.Fork?
    modifies head`root, ns, node
    ensures Splaying(Frame(cl, t.n, t.l), t.r, cr, left', head.root, right, node, ns, s)
  {
    hide Linked, Open, Closed, Nodes, SpineNodes, Shape, DistinctFork, Splaying;
    ghost var root := head.root;
    Parts(cl, t, cr, left, root, right, node, ns, s, true);
    Holders(cl, t, cr, left, root, right, node, ns, s);
    OpenParts(cl, false);
    AllocatedParts(cl, t, cr);
    LinkedShape(cl, t, cr, node, ns, s, false);
    left' := LinkRightLinks(head, left);
    Close(cl, false, root);
    Extended(cl, false, t);
    Linking(Frame(cl, t.n, t.l), t.r, cr, left', head.root, right, node, ns, s);
  }

  // Where the nodes whose links are in the holes are.
  lemma Holders(cl: Spine, t: Tree, cr: Spine, left: Node, root: Node?, right: Node, node: Node, ns: set<Node>,
                s: seq<Node>)
    requires Splaying(cl, t, cr, left, root, right, node, ns, s)
    ensures left == node || left in ns
    ensures right == node || right in ns
    ensures t.Fork? ==>
      t.n != left && t.n != right && left !in Nodes(t.l) && left !in Nodes(t.r) && right !in Nodes(t.l)
          && right !in Nodes(t.r)
    ensures left !in SpineNodes(cr) && right !in SpineNodes(cl)
    ensures left == right ==> left == node
    ensures cl.Frame? ==> left != node && left == cl.n
    ensures cr.Frame? ==> right != node && right == cr.n
  {
  }

  // What an open spine is made of.
  lemma OpenParts(c: Spine, left: bool)
    requires Open(c, left)
    ensures c.Frame? ==>
      && Linked(c.sib, Link(c.n, !left))
      && c.n !in Nodes(c.sib) && c.n !in SpineNodes(c.up) && Apart(Nodes(c.sib), SpineNodes(c.up))
      && Closed(c.up, left, c.n) && c.n in SpineNodes(c)
      && (forall n :: n in Nodes(c.sib) || n in SpineNodes(c.up) ==> n in SpineNodes(c))
  {
  }

  // Linking p in the hole closes the spine.
  lemma Close(c: Spine, left: bool, p: Node?)
    requires c.Frame? ==>
      && Link(c.n, left) == p && Linked(c.sib, Link(c.n, !left))
      && c.n !in Nodes(c.sib) && c.n !in SpineNodes(c.up) && Apart(Nodes(c.sib), SpineNodes(c.up))
      && Closed(c.up, left, c.n)
    ensures Closed(c, left, p)
  {
  }

  // The root of t and its other child go to the end of the spine.
  lemma Extended(c: Spine, left: bool, t: Tree)
    requires t.Fork? && Closed(c, left, t.n) && Linked(Arm(t, !left), Link(t.n, !left)) && DistinctFork(t)
    requires t.n !in SpineNodes(c) && Apart(Nodes(Arm(t, !left)), SpineNodes(c))
    ensures Open(Frame(c, t.n, Arm(t, !left)), left)
    ensures Highest(Frame(c, t.n, Arm(t, !left)), null) == if c.Top? then t.n else Highest(c, null)
  {
  }

  lemma LinkedShape(cl: Spine, t: Tree, cr: Spine, node: Node, ns: set<Node>, s: seq<Node>, left: bool)
    requires Shape(cl, t, cr, node, ns, s) && t.Fork? && DistinctFork(t)
    ensures if left then Shape(cl, t.l, Frame(cr, t.n, t.r), node, ns, s)
      else Shape(Frame(cl, t.n, t.l), t.r, cr, node, ns, s)
    ensures node !in Nodes(t.l) && node !in Nodes(t.r) && t.n !in SpineNodes(cl) && t.n !in SpineNodes(cr)
    ensures Apart(Nodes(t.r), SpineNodes(cr)) && Apart(Nodes(t.l), SpineNodes(cl))
  {
    LinkedOrder(SpineOrder(cl, false), InOrder(t.l), [t.n], InOrder(t.r), SpineOrder(cr, true));
    hide Apart;
    SetsApart(cl, t, cr);
  }

  lemma LinkedOrder(b: seq<Node>, l: seq<Node>, n: seq<Node>, r: seq<Node>, a: seq<Node>)
    ensures b + (l + n + r) + a == b + l + (n + r + a) == (b + l + n) + r + a
  {
  }

  lemma SetsApart(cl: Spine, t: Tree, cr: Spine)
    requires t.Fork? && DistinctFork(t)
    requires Apart(SpineNodes(cl), Nodes(t)) && Apart(SpineNodes(cl), SpineNodes(cr)) && Apart(Nodes(t), SpineNodes(cr))
    ensures Apart(Nodes(t.l), SpineNodes(Frame(cr, t.n, t.r))) && Apart(SpineNodes(cl), SpineNodes(Frame(cr, t.n, t.r)))
    ensures Apart(SpineNodes(cl), Nodes(t.l)) && Apart(Nodes(t.r), SpineNodes(cr)) && Apart(Nodes(t.l), SpineNodes(cl))
    ensures Apart(SpineNodes(Frame(cl, t.n, t.l)), Nodes(t.r)) && Apart(SpineNodes(Frame(cl, t.n, t.l)), SpineNodes(cr))
  {
  }

  lemma Linking(cl: Spine, t: Tree, cr: Spine, left: Node, root: Node?, right: Node, node: Node, ns: set<Node>,
                s: seq<Node>)
    requires Shape(cl, t, cr, node, ns, s) && Linked(t, root)
    requires Open(cl, false) && Open(cr, true) && Hangs(cl, false, left, node) && Hangs(cr, true, right, node)
    ensures Splaying(cl, t, cr, left, root, right, node, ns, s)
  {
  }

  // SPLAY_ASSEMBLE
  method AssembleLinks(root: Node, node: Node, left: Node, right: Node)
    requires root != node && root != left && root != right && (left == right ==> left == node)
    modifies root, left`right, right`left
    ensures left.right == old(root.left) && right.left == old(root.right)
    ensures root.left == if left == node then old(root.left) else old(node.right)
    ensures root.right == if right == node then old(root.right) else old(node.left)
  {
    left.right := root.left;
    right.left := root.right;
    root.left := node.right;
    root.right := node.left;
  }

  ghost function Assembled(cl: Spine, t: Tree, cr: Spine): Tree
    requires t.Fork?
  {
    Fork(Plug(cl, false, t.l), t.n, Plug(cr, true, t.r))
  }

  method Assemble(head: Head, ghost cl: Spine, ghost t: Tree, ghost cr: Spine,
                  left: Node, right: Node, node: Node, ghost ns: set<Node>, ghost s: seq<Node>)
    requires Splaying(cl, t, cr, left, head.root, right, node, ns, s) && t.Fork?
    modifies ns, node
    ensures head.root == t.n && Linked(Assembled(cl, t, cr), head.root)
    ensures Nodes(Assembled(cl, t, cr)) == ns && InOrder(Assembled(cl, t, cr)) == s
  {
    hide Linked, Open, Closed, Nodes, SpineNodes, Shape, DistinctFork, Splaying, InOrder, SpineOrder;
    ghost var root := head.root;
    Parts(cl, t, cr, left, root, right, node, ns, s, true);
    Holders(cl, t, cr, left, root, right, node, ns, s);
    OpenParts(cl, false);
    OpenParts(cr, true);
    AllocatedParts(cl, t, cr);
    ghost var l, r := root.left, root.right;
    AssembleLinks(head.root, node, left, right);
    Close(cl, false, l);
    Close(cr, true, r);
    AssembledLinked(cl, t, cr, root, l, r, node, ns, s);
  }

  lemma AssembledLinked(cl: Spine, t: Tree, cr: Spine, root: Node, l: Node?, r: Node?, node: Node, ns: set<Node>,
                        s: seq<Node>)
    requires Shape(cl, t, cr, node, ns, s) && t.Fork? && t.n == root && DistinctFork(t)
    requires Closed(cl, false, l) && Closed(cr, true, r) && Linked(t.l, l) && Linked(t.r, r)
    requires root.left == Highest(cl, l) && root.right == Highest(cr, r)
    ensures Linked(Assembled(cl, t, cr), root) && Nodes(Assembled(cl, t, cr)) == ns
    ensures InOrder(Assembled(cl, t, cr)) == s
  {
    hide InOrder, SpineOrder, Plug, Nodes, SpineNodes, Apart, Closed, DistinctFork;
    OrderAssembled(cl, t, cr);
    AssembledSets(cl, t, cr, ns);
    PlugLinked(cl, false, t.l, l);
    PlugLinked(cr, true, t.r, r);
    PlugNodes(cl, false, t.l);
    PlugNodes(cr, true, t.r);
    ForkNodes(Assembled(cl, t, cr));
  }

  lemma ForkNodes(t: Tree)
    requires t.Fork?
    ensures Nodes(t) == Nodes(t.l) + {t.n} + Nodes(t.r)
  {
  }

  lemma AssembledSets(cl: Spine, t: Tree, cr: Spine, ns: set<Node>)
    requires t.Fork? && DistinctFork(t) && ns == SpineNodes(cl) + Nodes(t) + SpineNodes(cr)
    requires Apart(SpineNodes(cl), Nodes(t)) && Apart(SpineNodes(cl), SpineNodes(cr)) && Apart(Nodes(t), SpineNodes(cr))
    ensures Apart(SpineNodes(cl), Nodes(t.l)) && Apart(SpineNodes(cr), Nodes(t.r))
    ensures
      var l, r := SpineNodes(cl) + Nodes(t.l), SpineNodes(cr) + Nodes(t.r);
      t.n !in l && t.n !in r && Apart(l, r) && l + {t.n} + r == ns
  {
  }

  lemma OrderAssembled(cl: Spine, t: Tree, cr: Spine)
    requires t.Fork?
    ensures InOrder(Assembled(cl, t, cr)) == SpineOrder(cl, false) + InOrder(t) + SpineOrder(cr, true)
  {
    hide Plug, SpineOrder;
    PlugOrder(cl, false, t.l);
    PlugOrder(cr, true, t.r);
    AssembledOrder(SpineOrder(cl, false), InOrder(t.l), [t.n], InOrder(t.r), SpineOrder(cr, true));
  }

  lemma InOrderFork(t: Tree)
    requires t.Fork?
    ensures InOrder(t) == InOrder(t.l) + [t.n] + InOrder(t.r)
  {
  }

  lemma AssembledOrder(b: seq<Node>, l: seq<Node>, n: seq<Node>, r: seq<Node>, a: seq<Node>)
    ensures (b + l) + n + (r + a) == b + (l + n + r) + a
  {
  }

  // ----- splaying -----

  ghost predicate Sorted(cmp: Comparison, s: seq<Node>) {
    forall i, j :: 0 <= i < j < |s| ==> cmp(s[i].key, s[j].key) < 0
  }

  ghost predicate AllBelow(cmp: Comparison, s: seq<Node>, key: int) { forall n :: n in s ==> cmp(key, n.key) > 0 }
  ghost predicate AllAbove(cmp: Comparison, s: seq<Node>, key: int) { forall n :: n in s ==> cmp(key, n.key) < 0 }

  // What head holds is linked, and in the order of cmp.
  ghost predicate Valid(head: Head, cmp: Comparison)
    reads head, Nodes(head.tree)
  {
    Linked(head.tree, head.root) && Sorted(cmp, InOrder(head.tree))
  }

  // The root has the key, or else comes right before or right after where that would be.
  ghost predicate Splayed(cmp: Comparison, key: int, t: Tree) {
    && t.Fork?
    && var comp := cmp(key, t.n.key);
    && (comp <= 0 ==> AllBelow(cmp, InOrder(t.l), key))
    && (comp >= 0 ==> AllAbove(cmp, InOrder(t.r), key))
  }

  // The parts already searched are below the key, and above it.
  ghost predicate Parted(cmp: Comparison, key: int, cl: Spine, cr: Spine) {
    AllBelow(cmp, SpineOrder(cl, false), key) && AllAbove(cmp, SpineOrder(cr, true), key)
  }

  // The search has come to the root of t.
  ghost predicate Ended(cmp: Comparison, key: int, t: Tree) {
    && t.Fork?
    && var comp := cmp(key, t.n.key);
    comp == 0 || (comp < 0 && t.l.Leaf?) || (comp > 0 && t.r.Leaf?)
  }

  // name_SPLAY, and the turns that its loop takes.
  method Splay(head: Head, elm: Node, cmp: Comparison) returns (ghost turns: nat)
    requires Ordering(cmp) && Valid(head, cmp) && head.root != null
    modifies head, Nodes(head.tree)
    ensures Valid(head, cmp) && head.root != null && Splayed(cmp, elm.key, head.tree)
    ensures Nodes(head.tree) == old(Nodes(head.tree)) && InOrder(head.tree) == old(InOrder(head.tree))
    ensures Size(head.tree) == old(Size(head.tree))
    ensures turns + 2 * Potential(head.tree) <= 2 * old(Potential(head.tree)) + 8 * Lg(Size(head.tree)) + 2
  {
    hide Linked, Splaying, Sorted, Parted, Splayed, Nodes, InOrder, Ordering, Ended, Access, Assembled, Size, Potential,
         Lg;
    ghost var ns, s, t := Nodes(head.tree), InOrder(head.tree), head.tree;
    ghost var cl, cr, t0 := Top, Top, t;
    assert allocated(ns);
    var node := new Node(0);
    var left, right := node, node;
    Started(head, node, cmp, elm.key);
    NothingAside(Access(cmp, elm.key, t).t);
    var comp := cmp(elm.key, head.root.key);
    var stop := false;
    turns := 0;
    while comp != 0 && !stop
      invariant Splaying(cl, t, cr, left, head.root, right, node, ns, s) && Parted(cmp, elm.key, cl, cr)
      invariant head.root != null && t.Fork? && head.root == t.n
      invariant if stop then Ended(cmp, elm.key, t) else comp == cmp(elm.key, head.root.key)
      invariant Course(cmp, elm.key, t0, cl, t, cr, turns, stop)
      decreases !stop, t
    {
      stop, left, right, cl, t, cr := SplayStep(head, elm, cmp, comp, cl, t, cr, left, right, node, ns, s);
      turns := turns + 1;
      comp := cmp(elm.key, head.root.key);
    }
    EndedAt(cmp, elm.key, t);
    CourseEnds(cmp, elm.key, t0, cl, t, cr, turns, stop);
    Assemble(head, cl, t, cr, left, right, node, ns, s);
    head.tree := Assembled(cl, t, cr);
    Reached(cmp, elm.key, cl, t, cr);
    WithinBound(cmp, elm.key, t0);
  }

  // The turns so far, and those ahead, are the course of the splay, and so is the tree that it ends with.
  ghost predicate Course(cmp: Comparison, key: int, t0: Tree, cl: Spine, t: Tree, cr: Spine, turns: nat, stop: bool)
    requires t0.Fork? && t.Fork?
  {
    var ahead := if stop then Outcome(t, 0) else Access(cmp, key, t);
    Access(cmp, key, t0) == Outcome(Assembled(cl, ahead.t, cr), turns + ahead.turns)
  }

  lemma NothingAside(t: Tree)
    requires t.Fork?
    ensures Assembled(Top, t, Top) == t
  {
  }

  lemma CourseEnds(cmp: Comparison, key: int, t0: Tree, cl: Spine, t: Tree, cr: Spine, turns: nat, stop: bool)
    requires t0.Fork? && t.Fork? && Course(cmp, key, t0, cl, t, cr, turns, stop)
    requires stop || cmp(key, t.n.key) == 0
    ensures Access(cmp, key, t0) == Outcome(Assembled(cl, t, cr), turns)
  {
  }

  lemma WithinBound(cmp: Comparison, key: int, t: Tree)
    requires t.Fork?
    ensures
      var o := Access(cmp, key, t);
      && Size(o.t) == Size(t)
      && o.turns + 2 * Potential(o.t) <= 2 * Potential(t) + 8 * Lg(Size(o.t)) + 2
  {
    hide Access, Size, Potential, Lg;
    Amortized(cmp, key, t);
  }

  // What one turn does to the course.
  lemma TurnOf(cmp: Comparison, key: int, t: Tree, left: bool)
    requires t.Fork? && Beyond(cmp(key, t.n.key), left)
    ensures
      var y := Arm(t, left);
      if y.Leaf? then Access(cmp, key, t) == Outcome(t, 1)
      else if !Beyond(cmp(key, y.n.key), left) then
        Access(cmp, key, t) == Hung(Access(cmp, key, y), left, t.n, Arm(t, !left))
      else
        var t' := Rotated(t, left);
        if Arm(t', left).Leaf? then Access(cmp, key, t) == Outcome(t', 1)
        else Access(cmp, key, t) == Hung(Access(cmp, key, Arm(t', left)), left, t'.n, Arm(t', !left))
  {
  }

  lemma HungAssembled(cl: Spine, o: Outcome, cr: Spine, left: bool, n: Node, sib: Tree)
    requires o.t.Fork?
    ensures
      var cl', cr' := if left then cl else Frame(cl, n, sib), if left then Frame(cr, n, sib) else cr;
      Assembled(cl', o.t, cr') == Assembled(cl, Hung(o, left, n, sib).t, cr)
    ensures Hung(o, left, n, sib).turns == o.turns + 1
  {
  }

  // One turn of the loop; it stops where the code breaks out of it.
  method SplayStep(head: Head, elm: Node, cmp: Comparison, comp: int, ghost cl: Spine, ghost t: Tree, ghost cr: Spine,
                   left: Node, right: Node, node: Node, ghost ns: set<Node>, ghost s: seq<Node>)
    returns (stop: bool, left': Node, right': Node, ghost cl': Spine, ghost t': Tree, ghost cr': Spine)
    requires Splaying(cl, t, cr, left, head.root, right, node, ns, s) && Parted(cmp, elm.key, cl, cr)
    requires Ordering(cmp) && Sorted(cmp, s) && t.Fork? && head.root == t.n && comp == cmp(elm.key, head.root.key) != 0
    modifies head`root, ns, node
    ensures Splaying(cl', t', cr', left', head.root, right', node, ns, s) && Parted(cmp, elm.key, cl', cr')
    ensures t'.Fork? && head.root == t'.n && if stop then Ended(cmp, elm.key, t') else t' < t
    ensures
      var was := Access(cmp, elm.key, t);
      if stop then cl' == cl && cr' == cr && was == Outcome(t', 1)
      else
        var ahead := Access(cmp, elm.key, t');
        Assembled(cl', ahead.t, cr') == Assembled(cl, was.t, cr) && was.turns == ahead.turns + 1
  {
    hide Linked, Splaying, Sorted, Parted, Nodes, InOrder, Ordering, Access, Assembled, Hung;
    TurnOf(cmp, elm.key, t, comp < 0);
    stop, left', right', cl', t', cr' := false, left, right, cl, t, cr;
    Parts(cl, t, cr, left, head.root, right, node, ns, s, comp < 0);
    if comp < 0 {
      var tmp := head.root.left;
      if tmp == null {
        stop := true;
        return;
      }
      if cmp(elm.key, tmp.key) < 0 {
        RotateRightAt(head, tmp, cl, t, cr, left, right, node, ns, s);
        t' := Rotated(t, true);
        Parts(cl, t', cr, left, head.root, right, node, ns, s, true);
        if head.root.left == null {
          stop := true;
          return;
        }
      }
      PartedLeft(cmp, elm.key, cl, t', cr, left, head.root, right, node, ns, s);
      right' := LinkLeftAt(head, cl, t', cr, left, right, node, ns, s);
      HungAssembled(cl, Access(cmp, elm.key, t'.l), cr, true, t'.n, t'.r);
      cr', t' := Frame(cr, t'.n, t'.r), t'.l;
    } else {
      var tmp := head.root.right;
      if tmp == null {
        stop := true;
        return;
      }
      if cmp(elm.key, tmp.key) > 0 {
        RotateLeftAt(head, tmp, cl, t, cr, left, right, node, ns, s);
        t' := Rotated(t, false);
        Parts(cl, t', cr, left, head.root, right, node, ns, s, false);
        if head.root.right == null {
          stop := true;
          return;
        }
      }
      PartedRight(cmp, elm.key, cl, t', cr, left, head.root, right, node, ns, s);
      left' := LinkRightAt(head, cl, t', cr, left, right, node, ns, s);
      HungAssembled(cl, Access(cmp, elm.key, t'.r), cr, false, t'.n, t'.l);
      cl', t' := Frame(cl, t'.n, t'.l), t'.r;
    }
    Rooted(cl', t', cr', left', head.root, right', node, ns, s);
  }

  lemma Started(head: Head, node: Node, cmp: Comparison, key: int)
    requires Valid(head, cmp) && head.root != null && node !in Nodes(head.tree)
    ensures Splaying(Top, head.tree, Top, node, head.root, node, node, Nodes(head.tree), InOrder(head.tree))
    ensures Parted(cmp, key, Top, Top)
    ensures head.tree.Fork? && head.root == head.tree.n
  {
    assert [] + InOrder(head.tree) + [] == InOrder(head.tree);
  }

  lemma Rooted(cl: Spine, t: Tree, cr: Spine, left: Node, root: Node?, right: Node, node: Node, ns: set<Node>,
               s: seq<Node>)
    requires Splaying(cl, t, cr, left, root, right, node, ns, s)
    ensures root == RootOf(t)
  {
  }

  lemma EndedAt(cmp: Comparison, key: int, t: Tree)
    requires t.Fork? && (cmp(key, t.n.key) == 0 || Ended(cmp, key, t))
    ensures Ended(cmp, key, t)
  {
  }

  lemma PartedLeft(cmp: Comparison, key: int, cl: Spine, t: Tree, cr: Spine, left: Node, root: Node?, right: Node,
                   node: Node, ns: set<Node>, s: seq<Node>)
    requires Splaying(cl, t, cr, left, root, right, node, ns, s) && Parted(cmp, key, cl, cr) && Ordering(cmp)
    requires Sorted(cmp, s)
    requires t.Fork? && cmp(key, t.n.key) < 0
    ensures Parted(cmp, key, cl, Frame(cr, t.n, t.r))
  {
    hide Ordering, Sorted;
    AboveFork(cmp, key, SpineOrder(cl, false), InOrder(t.l), t.n, InOrder(t.r), SpineOrder(cr, true));
  }

  lemma PartedRight(cmp: Comparison, key: int, cl: Spine, t: Tree, cr: Spine, left: Node, root: Node?, right: Node,
                    node: Node, ns: set<Node>, s: seq<Node>)
    requires Splaying(cl, t, cr, left, root, right, node, ns, s) && Parted(cmp, key, cl, cr) && Ordering(cmp)
    requires Sorted(cmp, s)
    requires t.Fork? && cmp(key, t.n.key) > 0
    ensures Parted(cmp, key, Frame(cl, t.n, t.l), cr)
  {
    hide Ordering, Sorted;
    BelowFork(cmp, key, SpineOrder(cl, false), InOrder(t.l), t.n, InOrder(t.r), SpineOrder(cr, true));
  }

  lemma AboveFork(cmp: Comparison, key: int, b: seq<Node>, l: seq<Node>, n: Node, r: seq<Node>, a: seq<Node>)
    requires Ordering(cmp) && Sorted(cmp, b + (l + [n] + r) + a) && cmp(key, n.key) < 0
    ensures AllAbove(cmp, [n] + r + a, key)
  {
    var s, k, above := b + (l + [n] + r) + a, |b| + |l|, [n] + r + a;
    forall m | m in above ensures cmp(key, m.key) < 0 {
      var j :| 0 <= j < |above| && above[j] == m;
      assert s[k] == n && s[k + j] == m;
      if j > 0 {
        Less(cmp, key, n.key, m.key);
      }
    }
  }

  lemma BelowFork(cmp: Comparison, key: int, b: seq<Node>, l: seq<Node>, n: Node, r: seq<Node>, a: seq<Node>)
    requires Ordering(cmp) && Sorted(cmp, b + (l + [n] + r) + a) && cmp(key, n.key) > 0
    ensures AllBelow(cmp, b + l + [n], key)
  {
    var s, k, below := b + (l + [n] + r) + a, |b| + |l|, b + l + [n];
    forall m | m in below ensures cmp(key, m.key) > 0 {
      var j :| 0 <= j < |below| && below[j] == m;
      assert s[k] == n && s[j] == m;
      if j < k {
        Less(cmp, m.key, n.key, key);
      }
    }
  }

  lemma Reached(cmp: Comparison, key: int, cl: Spine, t: Tree, cr: Spine)
    requires Ended(cmp, key, t) && Parted(cmp, key, cl, cr) && Ordering(cmp)
    requires Sorted(cmp, InOrder(Assembled(cl, t, cr)))
    ensures Splayed(cmp, key, Assembled(cl, t, cr))
  {
    var a, comp := Assembled(cl, t, cr), cmp(key, t.n.key);
    PlugOrder(cl, false, t.l);
    PlugOrder(cr, true, t.r);
    var l, r := InOrder(a.l), InOrder(a.r);
    assert InOrder(a) == [] + (l + [t.n] + r) + [];
    if comp == 0 {
      EqualBelow(cmp, key, l, t.n, r);
    } else if comp < 0 {
      assert l == SpineOrder(cl, false);
    } else {
      assert r == SpineOrder(cr, true);
    }
  }

  // What is on both sides of a node with the key.
  lemma EqualBelow(cmp: Comparison, key: int, l: seq<Node>, n: Node, r: seq<Node>)
    requires Ordering(cmp) && Sorted(cmp, l + [n] + r) && cmp(key, n.key) == 0
    ensures AllBelow(cmp, l, key) && AllAbove(cmp, r, key)
  {
    var s := l + [n] + r;
    forall m | m in l ensures cmp(key, m.key) > 0 {
      var j :| 0 <= j < |l| && l[j] == m;
      assert s[|l|] == n && s[j] == m;
      Less(cmp, m.key, n.key, key);
    }
    forall m | m in r ensures cmp(key, m.key) < 0 {
      var j :| 0 <= j < |r| && r[j] == m;
      assert s[|l|] == n && s[|l| + 1 + j] == m;
      Less(cmp, key, n.key, m.key);
    }
  }

  // After splaying, the key is at the root or nowhere.
  lemma KeyAtRoot(cmp: Comparison, key: int, t: Tree)
    requires Ordering(cmp) && Sorted(cmp, InOrder(t)) && Splayed(cmp, key, t)
    ensures cmp(key, t.n.key) < 0 ==> AllBelow(cmp, InOrder(t.l), key) && AllAbove(cmp, [t.n] + InOrder(t.r), key)
    ensures cmp(key, t.n.key) > 0 ==> AllBelow(cmp, InOrder(t.l) + [t.n], key) && AllAbove(cmp, InOrder(t.r), key)
    ensures cmp(key, t.n.key) != 0 ==> forall n :: n in InOrder(t) ==> cmp(key, n.key) != 0
  {
    hide Ordering, Sorted, AllBelow, AllAbove;
    var l, r := InOrder(t.l), InOrder(t.r);
    KeyBeside(cmp, key, l, t.n, r);
    assert InOrder(t) == l + [t.n] + r by { InOrderFork(t); }
  }

  lemma KeyBeside(cmp: Comparison, key: int, l: seq<Node>, n: Node, r: seq<Node>)
    requires Ordering(cmp) && Sorted(cmp, l + [n] + r)
    requires (cmp(key, n.key) <= 0 ==> AllBelow(cmp, l, key)) && (cmp(key, n.key) >= 0 ==> AllAbove(cmp, r, key))
    ensures cmp(key, n.key) < 0 ==> AllBelow(cmp, l, key) && AllAbove(cmp, [n] + r, key)
    ensures cmp(key, n.key) > 0 ==> AllBelow(cmp, l + [n], key) && AllAbove(cmp, r, key)
    ensures cmp(key, n.key) != 0 ==> forall m :: m in l + [n] + r ==> cmp(key, m.key) != 0
  {
    hide Ordering, Sorted, AllBelow, AllAbove;
    assert l + [n] + r == [] + (l + [n] + r) + [] == l + ([n] + r);
    if cmp(key, n.key) < 0 {
      AboveFork(cmp, key, [], l, n, r, []);
      assert [n] + r + [] == [n] + r;
      AllDiffer(cmp, key, l, [n] + r);
    } else if cmp(key, n.key) > 0 {
      BelowFork(cmp, key, [], l, n, r, []);
      assert [] + l + [n] == l + [n];
      AllDiffer(cmp, key, l + [n], r);
    }
  }

  lemma AllDiffer(cmp: Comparison, key: int, b: seq<Node>, a: seq<Node>)
    requires AllBelow(cmp, b, key) && AllAbove(cmp, a, key)
    ensures forall n :: n in b + a ==> cmp(key, n.key) != 0
  {
  }

  // SPLAY_FIND: the node with the key, if there is one; it is at the root then.
  method Find(head: Head, elm: Node, cmp: Comparison) returns (r: Node?, ghost turns: nat)
    requires Ordering(cmp) && Valid(head, cmp)
    modifies head, Nodes(head.tree)
    ensures Valid(head, cmp)
    ensures Nodes(head.tree) == old(Nodes(head.tree)) && InOrder(head.tree) == old(InOrder(head.tree))
    ensures r != null ==> r in InOrder(head.tree) && r == head.root && cmp(elm.key, r.key) == 0
    ensures r == null ==> forall n :: n in InOrder(head.tree) ==> cmp(elm.key, n.key) != 0
    ensures turns + 2 * Potential(head.tree) <= 2 * old(Potential(head.tree)) + 10 * Lg(old(Size(head.tree)) + 1)
  {
    hide Sorted, Ordering, Splayed, Potential, Size, Lg;
    ghost var t := head.tree;
    if head.root == null {
      EmptyTree(t);
      return null, 0;
    }
    turns := Splay(head, elm, cmp);
    LgOfMore(head.tree);
    KeyAtRoot(cmp, elm.key, head.tree);
    if cmp(elm.key, head.root.key) == 0 {
      return head.root, turns;
    }
    return null, turns;
  }

  ghost predicate Inserts(s: seq<Node>, n: Node, s': seq<Node>) {
    exists k :: 0 <= k <= |s| && s' == s[..k] + [n] + s[k..]
  }

  ghost predicate Removes(s: seq<Node>, n: Node, s': seq<Node>) {
    exists k :: 0 <= k < |s| && s[k] == n && s' == s[..k] + s[k + 1..]
  }

  // SPLAY_INSERT: null, or the node that is in the place of elm already.
  method Insert(head: Head, elm: Node, cmp: Comparison) returns (r: Node?, ghost turns: nat)
    requires Ordering(cmp) && Valid(head, cmp) && elm !in Nodes(head.tree)
    modifies head, elm, Nodes(head.tree)
    ensures Valid(head, cmp)
    ensures r != null ==>
      && r in InOrder(head.tree) && cmp(elm.key, r.key) == 0
      && Nodes(head.tree) == old(Nodes(head.tree)) && InOrder(head.tree) == old(InOrder(head.tree))
    ensures r == null ==>
      && head.root == elm && Nodes(head.tree) == old(Nodes(head.tree)) + {elm}
      && Inserts(old(InOrder(head.tree)), elm, InOrder(head.tree))
      && forall n :: n in old(InOrder(head.tree)) ==> cmp(elm.key, n.key) != 0
    ensures turns + 2 * Potential(head.tree) <= 2 * old(Potential(head.tree)) + 12 * Lg(old(Size(head.tree)) + 1)
  {
    hide Sorted, Ordering, Splayed, Inserts, Linked, AllBelow, AllAbove, Potential, Size, Lg;
    ghost var t': Tree;
    turns := 0;
    if head.root == null {
      EmptyTree(head.tree);
      elm.left, elm.right := null, null;
      OnlyNode(elm, cmp);
      t' := Fork(Leaf, elm, Leaf);
      NothingPaid(t');
    } else {
      turns := Splay(head, elm, cmp);
      KeyAtRoot(cmp, elm.key, head.tree);
      RootFirst(head.tree, head.root);
      LgOfMore(head.tree);
      var comp := cmp(elm.key, head.root.key);
      if comp == 0 {
        return head.root, turns;
      }
      InsertedPotential(head.tree, elm, comp < 0);
      t' := InsertAtRoot(head, elm, comp, cmp);
    }
    head.root := elm;
    head.tree := t';
    return null, turns;
  }

  lemma EmptyTree(t: Tree)
    requires Linked(t, null)
    ensures t.Leaf? && Potential(t) == 0
  {
  }

  lemma RootFirst(t: Tree, p: Node?)
    requires Linked(t, p) && p != null
    ensures t.Fork? && p == t.n && p in InOrder(t)
  {
  }

  // The links of SPLAY_INSERT when the root does not have the key.
  method InsertLinks(root: Node, elm: Node, comp: int)
    requires root != elm
    modifies elm, root
    ensures if comp < 0
      then elm.left == old(root.left) && elm.right == root && root.left == null && root.right == old(root.right)
            else elm.right == old(root.right) && elm.left == root && root.right == null && root.left == old(root.left)
  {
    if comp < 0 {
      elm.left := root.left;
      elm.right := root;
      root.left := null;
    } else {
      elm.right := root.right;
      elm.left := root;
      root.right := null;
    }
  }

  ghost function InsertedAt(t: Tree, elm: Node, below: bool): Tree
    requires t.Fork?
  {
    if below then Fork(t.l, elm, Fork(Leaf, t.n, t.r)) else Fork(Fork(t.l, t.n, Leaf), elm, t.r)
  }

  method InsertAtRoot(head: Head, elm: Node, comp: int, cmp: Comparison) returns (ghost t': Tree)
    requires Ordering(cmp) && Valid(head, cmp) && head.root != null && elm !in Nodes(head.tree)
    requires Splayed(cmp, elm.key, head.tree)
    requires comp == cmp(elm.key, head.root.key) != 0
    modifies elm, Nodes(head.tree)
    ensures Linked(t', elm) && Sorted(cmp, InOrder(t')) && Nodes(t') == Nodes(head.tree) + {elm}
    ensures Inserts(InOrder(head.tree), elm, InOrder(t')) && t' == InsertedAt(head.tree, elm, comp < 0)
  {
    hide Sorted, Ordering, Splayed, Inserts, Linked, AllBelow, AllAbove, Nodes, Apart;
    ghost var t := head.tree;
    KeyAtRoot(cmp, elm.key, t);
    ForkParts(t, head.root);
    InsertedOrder(cmp, elm, t, comp < 0);
    InsertLinks(head.root, elm, comp);
    t' := InsertedAt(t, elm, comp < 0);
    InsertedLinked(t, elm, comp < 0);
  }

  lemma ForkParts(t: Tree, p: Node?)
    requires Linked(t, p) && p != null
    ensures t.Fork? && p == t.n && Linked(t.l, p.left) && Linked(t.r, p.right) && DistinctFork(t) && p in Nodes(t)
    ensures p !in Nodes(t.l) && p !in Nodes(t.r) && (forall n :: n in Nodes(t.l) || n in Nodes(t.r) ==> n in Nodes(t))
    ensures forall n :: n in Nodes(t.l) ==> n !in Nodes(t.r)
    ensures allocated(Nodes(t.l)) && allocated(Nodes(t.r))
  {
  }

  lemma LgOfMore(t: Tree)
    requires t.Fork?
    ensures Lg(Size(t)) <= Lg(Size(t) + 1) && 1 <= Lg(Size(t) + 1)
  {
    LgMonotone(Size(t), Size(t) + 1);
    LgMonotone(2, Size(t) + 1);
  }

  lemma NothingPaid(t: Tree)
    requires t.Fork? && t.l.Leaf? && t.r.Leaf?
    ensures Potential(t) == 0
  {
    assert Size(t) == 1 && Potential(Leaf) == 0;
  }

  lemma LeafSums()
    ensures Size(Leaf) == 0 && Potential(Leaf) == 0
  {
  }

  lemma InsertedPotential(t: Tree, elm: Node, below: bool)
    requires t.Fork?
    ensures Potential(InsertedAt(t, elm, below)) <= Potential(t) + Lg(Size(t) + 1)
  {
    hide Size, Potential, Lg;
    LeafSums();
    var l, r := if below then Leaf else t.l, if below then t.r else Leaf;
    var rest := Fork(l, t.n, r);
    ForkSums(true, t.l, t.n, t.r);
    ForkSums(true, l, t.n, r);
    ForkSums(true, if below then t.l else rest, elm, if below then rest else t.r);
    LgMonotone(Size(rest), Size(t));
  }

  lemma InsertedLinked(t: Tree, elm: Node, below: bool)
    requires t.Fork? && DistinctFork(t) && elm !in Nodes(t)
    requires below ==> Linked(t.l, elm.left) && elm.right == t.n && t.n.left == null && Linked(t.r, t.n.right)
    requires !below ==> Linked(t.r, elm.right) && elm.left == t.n && t.n.right == null && Linked(t.l, t.n.left)
    ensures Linked(InsertedAt(t, elm, below), elm) && Nodes(InsertedAt(t, elm, below)) == Nodes(t) + {elm}
  {
    if below {
      assert Linked(Leaf, t.n.left) && Linked(Fork(Leaf, t.n, t.r), t.n);
    } else {
      assert Linked(Leaf, t.n.right) && Linked(Fork(t.l, t.n, Leaf), t.n);
    }
  }

  lemma InsertedOrder(cmp: Comparison, elm: Node, t: Tree, below: bool)
    requires Ordering(cmp) && t.Fork? && Sorted(cmp, InOrder(t))
    requires below ==> AllBelow(cmp, InOrder(t.l), elm.key) && AllAbove(cmp, [t.n] + InOrder(t.r), elm.key)
    requires !below ==> AllBelow(cmp, InOrder(t.l) + [t.n], elm.key) && AllAbove(cmp, InOrder(t.r), elm.key)
    ensures Sorted(cmp, InOrder(InsertedAt(t, elm, below)))
    ensures Inserts(InOrder(t), elm, InOrder(InsertedAt(t, elm, below)))
  {
    hide Ordering, Sorted, AllBelow, AllAbove;
    var l, r, n := InOrder(t.l), InOrder(t.r), [t.n];
    var b, a := if below then l else l + n, if below then n + r else r;
    InsertedSequence(InOrder(t), elm, b, a);
    if below {
      InsertedBelow(t, elm);
      assert InOrder(t) == b + a;
    } else {
      InsertedAbove(t, elm);
    }
    SortedInsertion(cmp, elm, b, a);
  }

  lemma InsertedSequence(s: seq<Node>, elm: Node, b: seq<Node>, a: seq<Node>)
    ensures Inserts(b + a, elm, b + [elm] + a)
  {
    var k := |b|;
    assert b + [elm] + a == (b + a)[..k] + [elm] + (b + a)[k..];
  }

  lemma InsertedBelow(t: Tree, elm: Node)
    requires t.Fork?
    ensures InOrder(InsertedAt(t, elm, true)) == InOrder(t.l) + [elm] + ([t.n] + InOrder(t.r))
  {
    assert InOrder(Fork(Leaf, t.n, t.r)) == [t.n] + InOrder(t.r);
  }

  lemma InsertedAbove(t: Tree, elm: Node)
    requires t.Fork?
    ensures InOrder(InsertedAt(t, elm, false)) == (InOrder(t.l) + [t.n]) + [elm] + InOrder(t.r)
  {
    assert InOrder(Fork(t.l, t.n, Leaf)) == InOrder(t.l) + [t.n];
  }

  lemma SortedInsertion(cmp: Comparison, elm: Node, b: seq<Node>, a: seq<Node>)
    requires Ordering(cmp) && Sorted(cmp, b + a) && AllBelow(cmp, b, elm.key) && AllAbove(cmp, a, elm.key)
    ensures Sorted(cmp, b + [elm] + a)
  {
    var s, s' := b + a, b + [elm] + a;
    forall i, j | 0 <= i < j < |s'| ensures cmp(s'[i].key, s'[j].key) < 0 {
      if j == |b| {
        assert s'[i] in b;
      } else if i == |b| {
        assert s'[j] in a;
      } else {
        var i0, j0 := if i < |b| then i else i - 1, if j < |b| then j else j - 1;
        assert s'[i] == s[i0] && s'[j] == s[j0];
      }
    }
  }

  lemma OnlyNode(elm: Node, cmp: Comparison)
    requires elm.left == null && elm.right == null
    ensures Linked(Fork(Leaf, elm, Leaf), elm) && Sorted(cmp, InOrder(Fork(Leaf, elm, Leaf)))
    ensures Inserts([], elm, InOrder(Fork(Leaf, elm, Leaf))) && Nodes(Fork(Leaf, elm, Leaf)) == {elm}
  {
    assert Linked(Leaf, elm.left) && Linked(Leaf, elm.right);
    assert InOrder(Fork(Leaf, elm, Leaf)) == [][..0] + [elm] + [][0..];
  }

  // x is the node of s in the place of the key, and s' is s without it.
  ghost predicate Deletes(cmp: Comparison, key: int, s: seq<Node>, x: Node, s': seq<Node>) {
    x in s && cmp(key, x.key) == 0 && Removes(s, x, s')
  }

  // SPLAY_REMOVE: elm, or null if no node is in its place.
  method Remove(head: Head, elm: Node, cmp: Comparison) returns (r: Node?, ghost x: Node?, ghost turns: nat)
    requires Ordering(cmp) && Valid(head, cmp)
    modifies head, Nodes(head.tree)
    ensures Valid(head, cmp)
    ensures r == null ==>
      && Nodes(head.tree) == old(Nodes(head.tree)) && InOrder(head.tree) == old(InOrder(head.tree))
      && forall n :: n in InOrder(head.tree) ==> cmp(elm.key, n.key) != 0
    ensures r != null ==>
      && r == elm && x != null && Deletes(cmp, elm.key, old(InOrder(head.tree)), x, InOrder(head.tree))
      && Nodes(head.tree) == old(Nodes(head.tree)) - {x}
    ensures turns + 2 * Potential(head.tree) <= 2 * old(Potential(head.tree)) + 20 * Lg(old(Size(head.tree)) + 1)
  {
    hide Sorted, Ordering, Splayed, Deletes, Linked, AllBelow, AllAbove, Potential, Size, Lg;
    x := null;
    if head.root == null {
      EmptyTree(head.tree);
      return null, x, 0;
    }
    turns := Splay(head, elm, cmp);
    KeyAtRoot(cmp, elm.key, head.tree);
    RootFirst(head.tree, head.root);
    LgOfMore(head.tree);
    if cmp(elm.key, head.root.key) == 0 {
      x := head.root;
      ghost var more := RemoveRoot(head, elm, cmp);
      return elm, x, turns + more;
    }
    return null, x, turns;
  }

  method RemoveRoot(head: Head, elm: Node, cmp: Comparison) returns (ghost turns: nat)
    requires Ordering(cmp) && Valid(head, cmp) && head.root != null && Splayed(cmp, elm.key, head.tree)
    requires cmp(elm.key, head.root.key) == 0
    modifies head, Nodes(head.tree)
    ensures Valid(head, cmp) && Nodes(head.tree) == old(Nodes(head.tree)) - {old(head.root)}
    ensures Deletes(cmp, elm.key, old(InOrder(head.tree)), old(head.root), InOrder(head.tree))
    ensures turns + 2 * Potential(head.tree) <= 2 * old(Potential(head.tree)) + 8 * Lg(old(Size(head.tree))) + 2
  {
    hide Sorted, Ordering, Splayed, Deletes, Linked, AllBelow, AllAbove, Nodes, Apart, Potential, Size, Lg;
    turns := 0;
    ghost var t, x := head.tree, head.root;
    ForkParts(t, x);
    RootOut(cmp, elm.key, t);
    PotentialParts(t);
    if head.root.left == null {
      EmptyTree(t.l);
      head.root := head.root.right;
      head.tree := t.r;
      OnlyRight(t);
    } else {
      var tmp := head.root.right;
      head.root := head.root.left;
      head.tree := t.l;
      turns := Splay(head, elm, cmp);
      ghost var t1 := head.tree;
      JoinedPotential(t, t1);
      NothingAbove(cmp, elm.key, t1, head.root);
      ForkParts(t1, head.root);
      head.root.right := tmp;
      head.tree := Fork(t1.l, t1.n, t.r);
      JoinedLinked(t, t1, head.root);
    }
  }

  lemma PotentialParts(t: Tree)
    requires t.Fork?
    ensures Potential(t) == Potential(t.l) + Lg(Size(t)) + Potential(t.r)
  {
  }

  lemma JoinedPotential(t: Tree, t1: Tree)
    requires t.Fork? && t1.Fork? && Size(t1) == Size(t.l)
    ensures Potential(Fork(t1.l, t1.n, t.r)) <= Potential(t1) + Lg(Size(t)) + Potential(t.r)
    ensures Lg(Size(t1)) <= Lg(Size(t))
  {
    LgMonotone(Size(Fork(t1.l, t1.n, t.r)), Size(t));
    LgMonotone(Size(t1), Size(t));
  }

  lemma RootOut(cmp: Comparison, key: int, t: Tree)
    requires Ordering(cmp) && Sorted(cmp, InOrder(t)) && Splayed(cmp, key, t) && cmp(key, t.n.key) == 0
    ensures AllBelow(cmp, InOrder(t.l), key) && Sorted(cmp, InOrder(t.l))
    ensures Sorted(cmp, InOrder(t.l) + InOrder(t.r)) && Deletes(cmp, key, InOrder(t), t.n, InOrder(t.l) + InOrder(t.r))
  {
    hide InOrder, Ordering, Sorted, AllBelow, AllAbove, Deletes;
    InOrderFork(t);
    MiddleOut(cmp, key, InOrder(t.l), t.n, InOrder(t.r));
  }

  lemma MiddleOut(cmp: Comparison, key: int, l: seq<Node>, n: Node, r: seq<Node>)
    requires Sorted(cmp, l + [n] + r) && cmp(key, n.key) == 0
    ensures Sorted(cmp, l) && Sorted(cmp, l + r) && Deletes(cmp, key, l + [n] + r, n, l + r)
  {
    var s, s' := l + [n] + r, l + r;
    assert s[|l|] == n && s' == s[..|l|] + s[|l| + 1..];
    forall i, j | 0 <= i < j < |s'| ensures cmp(s'[i].key, s'[j].key) < 0 {
      assert s'[i] == s[if i < |l| then i else i + 1] && s'[j] == s[if j < |l| then j else j + 1];
    }
    forall i, j | 0 <= i < j < |l| ensures cmp(l[i].key, l[j].key) < 0 {
      assert l[i] == s[i] && l[j] == s[j];
    }
  }

  lemma OnlyRight(t: Tree)
    requires t.Fork? && t.l.Leaf? && DistinctFork(t)
    ensures Nodes(t.r) == Nodes(t) - {t.n} && InOrder(t.r) == InOrder(t.l) + InOrder(t.r)
  {
  }

  // Splaying for a key above all nodes leaves none above the root.
  lemma NothingAbove(cmp: Comparison, key: int, t: Tree, p: Node?)
    requires Splayed(cmp, key, t) && AllBelow(cmp, InOrder(t), key)
    ensures t.r.Leaf?
  {
    RootListed(t);
    RootListed(t.r);
    assert forall n :: n in InOrder(t.r) ==> n in InOrder(t);
  }

  lemma RootListed(t: Tree)
    ensures t.Fork? ==> t.n in InOrder(t)
  {
  }

  // t1, of the nodes of t.l, with t.r below its root.
  lemma JoinedLinked(t: Tree, t1: Tree, root: Node)
    requires t.Fork? && DistinctFork(t) && t1.Fork? && DistinctFork(t1) && t1.n == root && t1.r.Leaf?
    requires Nodes(t1) == Nodes(t.l) && InOrder(t1) == InOrder(t.l)
    requires Linked(t1.l, root.left) && Linked(t.r, root.right)
    ensures
      var t' := Fork(t1.l, root, t.r);
      Linked(t', root) && Nodes(t') == Nodes(t) - {t.n} && InOrder(t') == InOrder(t.l) + InOrder(t.r)
  {
    JoinedOrder(t1, t.r);
    hide InOrder;
    JoinedNodes(t, t1);
  }

  lemma JoinedNodes(t: Tree, t1: Tree)
    requires t.Fork? && DistinctFork(t) && t1.Fork? && DistinctFork(t1) && t1.r.Leaf? && Nodes(t1) == Nodes(t.l)
    ensures Nodes(Fork(t1.l, t1.n, t.r)) == Nodes(t) - {t.n} && DistinctFork(Fork(t1.l, t1.n, t.r))
  {
  }

  lemma JoinedOrder(t1: Tree, r: Tree)
    requires t1.Fork? && t1.r.Leaf?
    ensures InOrder(Fork(t1.l, t1.n, r)) == InOrder(t1) + InOrder(r)
  {
    assert InOrder(t1) == InOrder(t1.l) + [t1.n];
  }
}
