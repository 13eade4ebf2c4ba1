/** The comparisons that the trees of malloclab/tree.h take as a parameter. */
module Comparisons {
  // Negative, zero, or positive.
  type Comparison = (int, int) -> int

  // cmp orders all keys, and may put several in the same place.
  ghost predicate Ordering(cmp: Comparison) {
    && (forall x, y :: cmp(x, y) < 0 <==> cmp(y, x) > 0)
    && (forall x, y, z :: cmp(x, y) <= 0 && cmp(y, z) <= 0 ==> cmp(x, z) <= 0)
  }

  lemma Less(cmp: Comparison, x: int, y: int, z: int)
    requires Ordering(cmp) && cmp(x, y) <= 0 && cmp(y, z) <= 0 && (cmp(x, y) < 0 || cmp(y, z) < 0)
    ensures cmp(x, z) < 0
  {
    var zx, yx, zy := cmp(z, x), cmp(y, x), cmp(z, y);
  }
}
