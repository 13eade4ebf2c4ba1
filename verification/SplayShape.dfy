/** The nodes of a splay tree of malloclab/tree.h, and the trees that they form. */
module SplayShape {
  // SPLAY_ENTRY; the key stands for what the comparison of the tree looks at.
  class Node {
    const key: int
    var left: Node?
    var right: Node?

    constructor (key: int)
      ensures this.key == key && left == null && right == null
    {
      this.key := key;
      left, right := null, null;
    }
  }

  datatype Tree = Leaf | Fork(l: Tree, n: Node, r: Tree)

  ghost function Nodes(t: Tree): set<Node> {
    match t
    case Leaf => {}
    case Fork(l, n, r) => Nodes(l) + {n} + Nodes(r)
  }

  ghost function InOrder(t: Tree): seq<Node> {
    match t
    case Leaf => []
    case Fork(l, n, r) => InOrder(l) + [n] + InOrder(r)
  }

  ghost function ForkAt(left: bool, t: Tree, n: Node, sib: Tree): Tree {
    if left then Fork(t, n, sib) else Fork(sib, n, t)
  }

  ghost function Arm(t: Tree, left: bool): Tree
    requires t.Fork?
  {
    if left then t.l else t.r
  }
}
