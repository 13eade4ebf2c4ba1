/** What a splay of malloclab/tree.h costs, against what it does for the balance of the tree. */
module SplayBalance {
  import opened Comparisons
  import opened SplayShape

  ghost function Size(t: Tree): nat {
    match t
    case Leaf => 0
    case Fork(l, _, r) => Size(l) + 1 + Size(r)
  }

  // The logarithm to base 2, rounded down; 0 for 0.
  ghost function Lg(n: nat): nat { if n < 2 then 0 else 1 + Lg(n / 2) }

  // The sum over all nodes of the logarithm of the size of their subtree.
  ghost function Potential(t: Tree): nat {
    match t
    case Leaf => 0
    case Fork(l, _, r) => Potential(l) + Lg(Size(t)) + Potential(r)
  }

  lemma {:induction false} LgMonotone(m: nat, n: nat)
    requires m <= n
    ensures Lg(m) <= Lg(n)
  {
    if m >= 2 {
      LgMonotone(m / 2, n / 2);
    }
  }

  // Two parts cannot both have the logarithm of the whole.
  lemma {:induction false} LgParts(m: nat, n: nat)
    requires 1 <= m && 1 <= n
    ensures Lg(m) + Lg(n) + 1 <= 2 * Lg(m + n)
    decreases m + n
  {
    if m < 2 || n < 2 {
      var less := if m < 2 then n else m;
      LgMonotone(less + 1, m + n);
      LgMonotone(less, m + n);
      if less >= 2 {
        LgMonotone(less / 2, (less + 1) / 2);
      }
    } else {
      LgParts(m / 2, n / 2);
      LgMonotone(m / 2 + n / 2, (m + n) / 2);
    }
  }

  // A tree of so many nodes has no more potential than this.
  lemma {:induction false} PotentialBound(t: Tree, n: nat)
    requires Size(t) <= n
    ensures Potential(t) <= Size(t) * Lg(n)
  {
    if t.Fork? {
      PotentialBound(t.l, n);
      PotentialBound(t.r, n);
      LgMonotone(Size(t), n);
      Distributes(Size(t.l), Size(t.r), Lg(n));
    }
  }

  lemma Distributes(x: nat, y: nat, k: nat)
    ensures (x + 1 + y) * k == x * k + k + y * k
  {
  }

  lemma LgPartsWithin(m: nat, n: nat, k: nat)
    requires 1 <= m && 1 <= n && m + n <= k
    ensures Lg(m) + Lg(n) + 1 <= 2 * Lg(k)
  {
    hide Lg;
    LgParts(m, n);
    LgMonotone(m + n, k);
  }

  // ----- the course of a splay -----

  // The tree that a splay ends with, and the turns of its loop.
  datatype Outcome = Outcome(t: Tree, turns: nat)

  predicate Beyond(comp: int, left: bool) { if left then comp < 0 else comp > 0 }

  // The splay goes on in the tree of o, and n, with sib, comes below what is beyond the key there.
  ghost function Hung(o: Outcome, left: bool, n: Node, sib: Tree): (h: Outcome)
    requires o.t.Fork?
    ensures h.t.Fork?
  {
    Outcome(ForkAt(left, Arm(o.t, left), o.t.n, ForkAt(left, Arm(o.t, !left), n, sib)), o.turns + 1)
  }

  ghost function Access(cmp: Comparison, key: int, t: Tree): (o: Outcome)
    requires t.Fork?
    ensures o.t.Fork?
    decreases t
  {
    var comp := cmp(key, t.n.key);
    if comp == 0 then Outcome(t, 0)
    else
      var left := comp < 0;
      var y := Arm(t, left);
      if y.Leaf? then Outcome(t, 1)
      else if Beyond(cmp(key, y.n.key), left) then
        var z := ForkAt(left, Arm(y, !left), t.n, Arm(t, !left));
        if Arm(y, left).Leaf? then Outcome(ForkAt(left, Leaf, y.n, z), 1)
        else Hung(Access(cmp, key, Arm(y, left)), left, y.n, z)
      else Hung(Access(cmp, key, y), left, t.n, Arm(t, !left))
  }

  lemma ForkSums(left: bool, t: Tree, n: Node, sib: Tree)
    ensures Size(ForkAt(left, t, n, sib)) == Size(t) + 1 + Size(sib)
    ensures Potential(ForkAt(left, t, n, sib)) == Potential(t) + Lg(Size(t) + 1 + Size(sib)) + Potential(sib)
  {
  }

  lemma AsFork(t: Tree, left: bool)
    requires t.Fork?
    ensures Size(t) == Size(Arm(t, left)) + 1 + Size(Arm(t, !left))
    ensures Potential(t) == Potential(Arm(t, left)) + Lg(Size(t)) + Potential(Arm(t, !left))
  {
  }

  // The far side of the outcome's root.
  ghost function Far(o: Outcome, left: bool): nat
    requires o.t.Fork?
  {
    Size(Arm(o.t, !left))
  }

  lemma HungParts(o: Outcome, left: bool, n: Node, sib: Tree)
    requires o.t.Fork?
    ensures
      var h := Hung(o, left, n, sib);
      && h.turns == o.turns + 1 && Size(h.t) == Size(o.t) + 1 + Size(sib)
      && Potential(h.t) ==
         Potential(o.t) - Lg(Size(o.t)) + Lg(Size(h.t)) + Lg(Far(o, left) + 1 + Size(sib)) + Potential(sib)
      && Size(Arm(h.t, left)) == Size(Arm(o.t, left)) && Far(h, left) == Far(o, left) + 1 + Size(sib)
  {
    hide Size, Potential, Lg;
    var b := ForkAt(left, Arm(o.t, !left), n, sib);
    AsFork(o.t, left);
    ForkSums(left, Arm(o.t, !left), n, sib);
    ForkSums(left, Arm(o.t, left), o.t.n, b);
  }

  lemma {:induction false} SameSize(cmp: Comparison, key: int, t: Tree)
    requires t.Fork?
    ensures Size(Access(cmp, key, t).t) == Size(t)
    decreases t
  {
    var comp := cmp(key, t.n.key);
    var left := comp < 0;
    var y := Arm(t, left);
    AsFork(t, left);
    if comp != 0 && y.Fork? {
      AsFork(y, left);
      if Beyond(cmp(key, y.n.key), left) {
        var z := ForkAt(left, Arm(y, !left), t.n, Arm(t, !left));
        ForkSums(left, Arm(y, !left), t.n, Arm(t, !left));
        ForkSums(left, Leaf, y.n, z);
        if Arm(y, left).Fork? {
          SameSize(cmp, key, Arm(y, left));
          HungParts(Access(cmp, key, Arm(y, left)), left, y.n, z);
        }
      } else {
        SameSize(cmp, key, y);
        HungParts(Access(cmp, key, y), left, t.n, Arm(t, !left));
      }
    }
  }

  // ----- the bound -----

  ghost predicate Bounded(o: Outcome, t: Tree) {
    o.turns + 2 * Potential(o.t) <= 2 * Potential(t) + 8 * Lg(Size(t)) + 2
  }

  // Both the child and the child's child are beyond the key: the child is turned above its parent.
  lemma TurnBounded(t: Tree, left: bool, o: Outcome)
    requires t.Fork? && Arm(t, left).Fork? && Arm(Arm(t, left), left).Fork?
    requires o.t.Fork? && Size(o.t) == Size(Arm(Arm(t, left), left)) && Bounded(o, Arm(Arm(t, left), left))
    ensures
      var y := Arm(t, left);
      Bounded(Hung(o, left, y.n, ForkAt(left, Arm(y, !left), t.n, Arm(t, !left))), t)
  {
    hide Size, Potential, Lg, Hung, ForkAt;
    var y := Arm(t, left);
    var x, d, c := Arm(y, left), Arm(y, !left), Arm(t, !left);
    var z := ForkAt(left, d, t.n, c);
    AsFork(t, left);
    AsFork(y, left);
    AsFork(o.t, left);
    ForkSums(left, d, t.n, c);
    HungParts(o, left, y.n, z);
    assert Size(Hung(o, left, y.n, z).t) == Size(t) && Size(z) == Size(d) + 1 + Size(c);
    LgPartsWithin(Size(x), Size(z), Size(t));
    LgMonotone(Size(x), Size(y));
    LgMonotone(Size(y), Size(t));
    LgMonotone(Far(o, left) + 1 + Size(z), Size(t));
  }

  // The same, when there is no child's child.
  lemma TurnEnds(t: Tree, left: bool)
    requires t.Fork? && Arm(t, left).Fork? && Arm(Arm(t, left), left).Leaf?
    ensures
      var y := Arm(t, left);
      Bounded(Outcome(ForkAt(left, Leaf, y.n, ForkAt(left, Arm(y, !left), t.n, Arm(t, !left))), 1), t)
  {
    hide Size, Potential, Lg, Hung, ForkAt;
    var y := Arm(t, left);
    var d, c := Arm(y, !left), Arm(t, !left);
    var z := ForkAt(left, d, t.n, c);
    AsFork(t, left);
    AsFork(y, left);
    ForkSums(left, d, t.n, c);
    ForkSums(left, Leaf, y.n, z);
    LgMonotone(Size(z), Size(t));
  }

  // Only the child is beyond the key, and the splay ends there or at the child's child.
  lemma LinkEnds(t: Tree, left: bool, o: Outcome)
    requires t.Fork? && Arm(t, left).Fork? && o.turns <= 1 && o.t.Fork? && Size(o.t) == Size(Arm(t, left))
    requires Potential(o.t) <= Potential(Arm(t, left)) + Lg(Size(Arm(t, left)))
    ensures Bounded(Hung(o, left, t.n, Arm(t, !left)), t)
  {
    hide Size, Potential, Lg, Hung, ForkAt;
    var y, c := Arm(t, left), Arm(t, !left);
    AsFork(t, left);
    AsFork(o.t, left);
    HungParts(o, left, t.n, c);
    LgMonotone(Far(o, left) + 1 + Size(c), Size(t));
    LgMonotone(Size(y), Size(t));
  }

  // Only the child is beyond the key, and then, on the other side, only the child's child.
  lemma LinksBounded(t: Tree, left: bool, o: Outcome)
    requires t.Fork? && Arm(t, left).Fork? && Arm(Arm(t, left), !left).Fork?
    requires o.t.Fork? && Size(o.t) == Size(Arm(Arm(t, left), !left)) && Bounded(o, Arm(Arm(t, left), !left))
    ensures
      var y := Arm(t, left);
      Bounded(Hung(Hung(o, !left, y.n, Arm(y, left)), left, t.n, Arm(t, !left)), t)
  {
    hide Size, Potential, Lg, Hung, ForkAt;
    var y := Arm(t, left);
    var x, e, c := Arm(y, !left), Arm(y, left), Arm(t, !left);
    var h := Hung(o, !left, y.n, e);
    AsFork(t, left);
    AsFork(y, !left);
    AsFork(o.t, left);
    HungParts(o, !left, y.n, e);
    HungParts(h, left, t.n, c);
    assert Size(h.t) == Size(y) && Size(Hung(h, left, t.n, c).t) == Size(t);
    var l, r := Far(o, !left) + 1 + Size(e), Far(h, left) + 1 + Size(c);
    LgPartsWithin(l, r, Size(t));
    LgMonotone(Size(x), Size(y));
    LgMonotone(Size(y), Size(t));
  }

  // Only the child is beyond the key, and then, on the other side, both the child's child and its child.
  lemma LinkTurnBounded(t: Tree, left: bool, o: Outcome)
    requires t.Fork? && Arm(t, left).Fork? && Arm(Arm(t, left), !left).Fork?
    requires Arm(Arm(Arm(t, left), !left), !left).Fork?
    requires o.t.Fork? && Size(o.t) == Size(Arm(Arm(Arm(t, left), !left), !left))
    requires Bounded(o, Arm(Arm(Arm(t, left), !left), !left))
    ensures
      var y := Arm(t, left);
      var w := Arm(y, !left);
      Bounded(Hung(Hung(o, !left, w.n, ForkAt(!left, Arm(w, left), y.n, Arm(y, left))), left, t.n, Arm(t, !left)), t)
  {
    hide Size, Potential, Lg, Hung, ForkAt;
    var y := Arm(t, left);
    var w := Arm(y, !left);
    var x, f, e, c := Arm(w, !left), Arm(w, left), Arm(y, left), Arm(t, !left);
    var z := ForkAt(!left, f, y.n, e);
    var h := Hung(o, !left, w.n, z);
    AsFork(t, left);
    AsFork(y, !left);
    AsFork(w, !left);
    AsFork(o.t, left);
    ForkSums(!left, f, y.n, e);
    HungParts(o, !left, w.n, z);
    HungParts(h, left, t.n, c);
    assert Size(h.t) == Size(y) && Size(Hung(h, left, t.n, c).t) == Size(t);
    assert Size(z) == Size(f) + 1 + Size(e);
    var l, r := Far(o, !left) + 1 + Size(z), Far(h, left) + 1 + Size(c);
    LgPartsWithin(l, r, Size(t));
    LgPartsWithin(Size(x), Size(z), Size(t));
    LgMonotone(Size(x), Size(w));
    LgMonotone(Size(x), Size(y));
    LgMonotone(Size(y), Size(t));
  }

  // A splay costs no more turns than it takes off the potential, twice counted, but for a multiple of the logarithm.
  lemma {:induction false} Amortized(cmp: Comparison, key: int, t: Tree)
    requires t.Fork?
    ensures Bounded(Access(cmp, key, t), t) && Size(Access(cmp, key, t).t) == Size(t)
    decreases t
  {
    hide Bounded, Hung, Size, Potential, Lg;
    SameSize(cmp, key, t);
    var comp := cmp(key, t.n.key);
    var left := comp < 0;
    var y := Arm(t, left);
    if comp == 0 || y.Leaf? {
      AtOnce(t, 0);
      AtOnce(t, 1);
    } else if !Beyond(cmp(key, y.n.key), left) {
      ThenOther(cmp, key, t, left);
    } else if Arm(y, left).Leaf? {
      TurnEnds(t, left);
    } else {
      Amortized(cmp, key, Arm(y, left));
      TurnBounded(t, left, Access(cmp, key, Arm(y, left)));
    }
  }

  lemma AtOnce(t: Tree, turns: nat)
    requires turns <= 1
    ensures Bounded(Outcome(t, turns), t)
  {
  }

  // When the next turn is at the child.
  lemma ThenOther(cmp: Comparison, key: int, t: Tree, left: bool)
    requires t.Fork? && Arm(t, left).Fork? && !Beyond(cmp(key, Arm(t, left).n.key), left)
    ensures Bounded(Hung(Access(cmp, key, Arm(t, left)), left, t.n, Arm(t, !left)), t)
    decreases t, 0
  {
    hide Bounded, Hung, Size, Potential, Lg;
    var y := Arm(t, left);
    SameSize(cmp, key, y);
    var comp := cmp(key, y.n.key);
    var w := Arm(y, !left);
    if comp == 0 || w.Leaf? {
      LinkEnds(t, left, Access(cmp, key, y));
    } else if !Beyond(cmp(key, w.n.key), !left) {
      Amortized(cmp, key, w);
      LinksBounded(t, left, Access(cmp, key, w));
    } else if Arm(w, !left).Leaf? {
      TurnedPotential(y, !left);
      LinkEnds(t, left, Access(cmp, key, y));
    } else {
      Amortized(cmp, key, Arm(w, !left));
      LinkTurnBounded(t, left, Access(cmp, key, Arm(w, !left)));
    }
  }

  lemma TurnedPotential(t: Tree, left: bool)
    requires t.Fork? && Arm(t, left).Fork? && Arm(Arm(t, left), left).Leaf?
    ensures
      var y := Arm(t, left);
      Potential(ForkAt(left, Leaf, y.n, ForkAt(left, Arm(y, !left), t.n, Arm(t, !left)))) <= Potential(t) + Lg(Size(t))
  {
    hide Size, Potential, Lg, Hung, ForkAt;
    var y := Arm(t, left);
    var d, c := Arm(y, !left), Arm(t, !left);
    var z := ForkAt(left, d, t.n, c);
    AsFork(t, left);
    AsFork(y, left);
    ForkSums(left, d, t.n, c);
    ForkSums(left, Leaf, y.n, z);
    LgMonotone(Size(z), Size(t));
  }
}
