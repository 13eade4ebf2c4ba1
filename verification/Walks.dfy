/** What the tags of a tiled heap say to a reader that follows them. */
module Walks {
  import opened Memory
  import opened Layout
  import opened Blocks

  // The blocks from b to the epilogue, each found from the one before it by its size.
  ghost function Walk(m: seq<Word>, b: nat, epi: nat): seq<nat>
    decreases epi - b
  {
    if b >= epi || b >= |m| || Size(m, b) == 0 then [] else [b] + Walk(m, b + Size(m, b), epi)
  }

  ghost function TotalSize(m: seq<Word>, bs: seq<nat>): nat {
    if bs == [] then 0 else (if bs[0] < |m| then Size(m, bs[0]) else 0) + TotalSize(m, bs[1..])
  }

  lemma {:induction false} WalkVisits(m: seq<Word>, epi: nat, s: set<nat>, min: nat, b: nat)
    requires Tiled(m, epi, s, min) && b in s + {epi}
    ensures forall c :: c in Walk(m, b, epi) <==> c in s && b <= c
    ensures TotalSize(m, Walk(m, b, epi)) == epi - b
    decreases epi - b
  {
    if b in s {
      BlockExtent(m, epi, s, min, b);
      var n := b + Size(m, b);
      WalkVisits(m, epi, s, min, n);
      var w := Walk(m, n, epi);
      assert Walk(m, b, epi) == [b] + w && ([b] + w)[1..] == w;
      hide Tiled;
      forall c ensures c in [b] + w <==> c in s && b <= c {
        assert c in s && b <= c < n ==> c == b;
      }
    } else {
      forall c | c in s ensures c < epi {
        BlockExtent(m, epi, s, min, c);
      }
    }
  }

  // Block b has at least min words, a multiple of four, its header is its footer too, and it is used or the next is.
  ghost predicate InOrder(m: seq<Word>, epi: nat, min: nat, b: nat) {
    && b < |m| && Size(m, b) >= min > 0 && Size(m, b) % 4 == 0
    && b + Size(m, b) <= epi < |m| && m[b + Size(m, b) - 1] == m[b]
    && (Used(m, b) || Used(m, b + Size(m, b)))
  }

  lemma BlockInOrder(m: seq<Word>, epi: nat, s: set<nat>, min: nat, c: nat)
    requires Tiled(m, epi, s, min) && Coalesced(m, s, {}) && c in s
    ensures FIRST <= c && InOrder(m, epi, min, c)
  {
    assert Block(m, epi, s, min, c) && NotBothFree(m, s, {}, c);
    var n := c + Size(m, c);
    if n in s {
      BlockExtent(m, epi, s, min, n);
    }
  }

  // A walk from the first block by the sizes in the headers visits exactly the blocks and ends at the epilogue;
  // each block is in order; and the sizes add up to the heap but for four words.
  lemma TagsTileHeap(m: seq<Word>, epi: nat, s: set<nat>, min: nat)
    requires Tiled(m, epi, s, min) && Coalesced(m, s, {})
    ensures forall c :: c in Walk(m, FIRST, epi) <==> c in s
    ensures forall c :: c in s ==> InOrder(m, epi, min, c)
    ensures TotalSize(m, Walk(m, FIRST, epi)) == (epi + 1 - HEAP_LO) - 4
  {
    WalkVisits(m, epi, s, min, FIRST);
    forall c | c in s ensures FIRST <= c && InOrder(m, epi, min, c) {
      BlockInOrder(m, epi, s, min, c);
    }
  }
}
