/** Boundary-tagged blocks that tile the heap, as malloclab/mm.c and mm-gback-implicit.c lay them out. */
module Layout {
  import opened Memory

  // free_lists[] lies in static memory, ten words for each of its ten elements; the heap follows.
  const FREE_LISTS := 16
  const HEAP_LO := 116
  // Where the first block goes: after two words of padding and the prologue fence.
  const FIRST := HEAP_LO + 3

  // The memory that mem_sbrk can give.
  const MAX_HEAP_WORDS := 0x1000_0000
  const HEAP_MAX := HEAP_LO + MAX_HEAP_WORDS

  // struct boundary_tag: the inuse bit is the lowest of the word, the size in words the others.
  function Pack(used: bool, size: nat): (w: Word)
    requires size < 0x4000_0000
    ensures w % 2 == (if used then 1 else 0) && w / 2 == size
  {
    2 * size + if used then 1 else 0
  }

  const FENCE: Word := Pack(true, 0)

  function Size(m: seq<Word>, b: nat): nat requires b < |m| { m[b] / 2 }
  predicate Used(m: seq<Word>, b: nat) requires b < |m| { m[b] % 2 == 1 }

  // b is a block of at least min words that ends where another block, or the epilogue, begins.
  ghost predicate Block(m: seq<Word>, epi: nat, s: set<nat>, min: nat, b: nat) {
    && FIRST <= b < epi < |m| && b % 4 == 3
    && Size(m, b) >= min && Size(m, b) % 4 == 0
    && b + Size(m, b) <= epi
    && m[b + Size(m, b) - 1] == m[b]
    && (b + Size(m, b) == epi || b + Size(m, b) in s)
  }

  // The footer that ends before word c belongs to a block of s.
  ghost predicate FollowsBlock(m: seq<Word>, s: set<nat>, c: nat) {
    && 0 < c <= |m| && m[c - 1] / 2 <= c
    && var p := c - Size(m, c - 1);
       p in s && p < c && Size(m, p) == c - p
  }

  ghost predicate Separate(m: seq<Word>, b: nat, c: nat) {
    b < |m| && (b < c ==> b + Size(m, b) <= c)
  }

  // The blocks that start at the words in s tile the heap from FIRST to the epilogue at epi.
  ghost predicate Tiled(m: seq<Word>, epi: nat, s: set<nat>, min: nat) {
    && FIRST <= epi < |m| && epi % 4 == 3 && 4 <= min
    && m[FIRST - 1] == FENCE && m[epi] == FENCE
    && (FIRST == epi || FIRST in s)
    && (forall b {:trigger Block(m, epi, s, min, b)} :: b in s ==> Block(m, epi, s, min, b))
    && (forall b {:trigger FollowsBlock(m, s, b)} :: b in s + {epi} && b != FIRST ==> FollowsBlock(m, s, b))
    && (forall b, c {:trigger Separate(m, b, c)} :: b in s && c in s ==> Separate(m, b, c))
  }

  ghost predicate TagsAgree(m: seq<Word>, m': seq<Word>, b: nat) {
    && b < |m| == |m'| && 0 < b + Size(m, b) <= |m|
    && m'[b] == m[b] && m'[b + Size(m, b) - 1] == m[b + Size(m, b) - 1]
  }

  // m' has the tags of the blocks in s, and the fences, of m.
  ghost predicate SameTags(m: seq<Word>, m': seq<Word>, epi: nat, s: set<nat>) {
    && FIRST <= epi < |m| == |m'| && m'[FIRST - 1] == m[FIRST - 1] && m'[epi] == m[epi]
    && forall b {:trigger TagsAgree(m, m', b)} :: b in s ==> TagsAgree(m, m', b)
  }

  lemma TagsTile(m: seq<Word>, m': seq<Word>, epi: nat, s: set<nat>, min: nat)
    requires Tiled(m, epi, s, min) && SameTags(m, m', epi, s)
    ensures Tiled(m', epi, s, min)
  {
    hide Block, FollowsBlock, Separate, TagsAgree;
    forall b | b in s ensures Block(m', epi, s, min, b) {
      SameBlock(m, m', epi, s, min, b);
    }
    forall b | b in s + {epi} && b != FIRST ensures FollowsBlock(m', s, b) {
      SameFollows(m, m', epi, s, min, b);
    }
    forall b, c | b in s && c in s ensures Separate(m', b, c) {
      assert Separate(m, b, c) && TagsAgree(m, m', b);
      SameBlock(m, m', epi, s, min, b);
    }
  }

  lemma SameBlock(m: seq<Word>, m': seq<Word>, epi: nat, s: set<nat>, min: nat, b: nat)
    requires Tiled(m, epi, s, min) && SameTags(m, m', epi, s) && b in s
    ensures Block(m', epi, s, min, b) && forall c :: Separate(m, b, c) ==> Separate(m', b, c)
  {
    assert Block(m, epi, s, min, b) && TagsAgree(m, m', b);
  }

  lemma SameFollows(m: seq<Word>, m': seq<Word>, epi: nat, s: set<nat>, min: nat, b: nat)
    requires Tiled(m, epi, s, min) && SameTags(m, m', epi, s) && b in s + {epi} && b != FIRST
    ensures FollowsBlock(m', s, b)
  {
    assert FollowsBlock(m, s, b) && TagsAgree(m, m', b - Size(m, b - 1));
    assert Block(m, epi, s, min, b - Size(m, b - 1));
  }

  // The blocks of s that do not start strictly between b and e.
  ghost function Joined(s: set<nat>, b: nat, e: nat): set<nat> { set c | c in s && !(b < c < e) }

  // m' is m with the tags of one block from b to e in place of those between them.
  ghost predicate JoinsTags(m: seq<Word>, m': seq<Word>, epi: nat, s: set<nat>, b: nat, e: nat) {
    && b in s && e in s + {epi} && b < e && (e - b) % 4 == 0
    && SameTags(m, m', epi, Joined(s, b, e) - {b})
    && e < |m| && m'[b] == m'[e - 1] && m'[b] / 2 == e - b
  }

  lemma JoinTiles(m: seq<Word>, m': seq<Word>, epi: nat, s: set<nat>, min: nat, b: nat, e: nat)
    requires Tiled(m, epi, s, min) && JoinsTags(m, m', epi, s, b, e)
    ensures Tiled(m', epi, Joined(s, b, e), min)
  {
    var s' := Joined(s, b, e);
    forall c | c in s' ensures Block(m', epi, s', min, c) {
      JoinBlock(m, m', epi, s, min, b, e, c);
    }
    forall c, d | c in s' && d in s' ensures Separate(m', c, d) {
      JoinBlock(m, m', epi, s, min, b, e, c);
      assert Separate(m, c, d);
    }
    forall c | c in s' + {epi} && c != FIRST ensures FollowsBlock(m', s', c) {
      JoinFollows(m, m', epi, s, min, b, e, c);
    }
    assert Block(m, epi, s, min, b);
  }

  lemma JoinBlock(m: seq<Word>, m': seq<Word>, epi: nat, s: set<nat>, min: nat, b: nat, e: nat, c: nat)
    requires Tiled(m, epi, s, min) && JoinsTags(m, m', epi, s, b, e)
    requires c in Joined(s, b, e)
    ensures Block(m', epi, Joined(s, b, e), min, c)
    ensures c != b ==> Size(m', c) == Size(m, c)
  {
    assert Block(m, epi, s, min, c) && Block(m, epi, s, min, b);
    assert TagsAgree(m, m', c) || c == b;
    assert Separate(m, c, b) && Separate(m, b, c);
    assert e != epi ==> Separate(m, b, e) && Block(m, epi, s, min, e);
    if c != b && c + Size(m, c) != epi {
      assert Separate(m, c, c + Size(m, c));
      assert Separate(m, b, c + Size(m, c));
    }
  }

  lemma JoinFollows(m: seq<Word>, m': seq<Word>, epi: nat, s: set<nat>, min: nat, b: nat, e: nat, c: nat)
    requires Tiled(m, epi, s, min) && JoinsTags(m, m', epi, s, b, e)
    requires c in Joined(s, b, e) + {epi} && c != FIRST
    ensures FollowsBlock(m', Joined(s, b, e), c)
  {
    if c != e {
      assert FollowsBlock(m, s, c);
      var p := c - Size(m, c - 1);
      assert Block(m, epi, s, min, p) && Block(m, epi, s, min, b);
      assert c in s ==> Separate(m, b, c);
      assert Separate(m, p, b);
      assert e in s ==> Block(m, epi, s, min, e) && Separate(m, p, e);
      assert TagsAgree(m, m', p);
    }
  }

  // m' is m with the tags of two blocks, the first of k words, in place of those of b.
  ghost predicate SplitsTags(m: seq<Word>, m': seq<Word>, epi: nat, s: set<nat>, min: nat, b: nat, k: nat) {
    && b in s && b < |m| && 4 <= min <= k && k % 4 == 0 && k + min <= Size(m, b)
    && SameTags(m, m', epi, s - {b}) && b + Size(m, b) <= |m|
    && m'[b] == m'[b + k - 1] && m'[b] / 2 == k
    && m'[b + k] == m'[b + Size(m, b) - 1] && m'[b + k] / 2 == Size(m, b) - k
  }

  lemma SplitTiles(m: seq<Word>, m': seq<Word>, epi: nat, s: set<nat>, min: nat, b: nat, k: nat)
    requires Tiled(m, epi, s, min) && SplitsTags(m, m', epi, s, min, b, k)
    ensures Tiled(m', epi, s + {b + k}, min)
  {
    var s' := s + {b + k};
    forall c | c in s' ensures Block(m', epi, s', min, c) {
      SplitBlock(m, m', epi, s, min, b, k, c);
    }
    forall c, d | c in s' && d in s' ensures Separate(m', c, d) {
      SplitSeparate(m, m', epi, s, min, b, k, c, d);
    }
    forall c | c in s' + {epi} && c != FIRST ensures FollowsBlock(m', s', c) {
      SplitFollows(m, m', epi, s, min, b, k, c);
    }
  }

  lemma SplitBlock(m: seq<Word>, m': seq<Word>, epi: nat, s: set<nat>, min: nat, b: nat, k: nat, c: nat)
    requires Tiled(m, epi, s, min) && SplitsTags(m, m', epi, s, min, b, k)
    requires c in s + {b + k}
    ensures Block(m', epi, s + {b + k}, min, c)
    ensures Size(m', c) == if c == b then k else if c == b + k then Size(m, b) - k else Size(m, c)
  {
    if c == b || c == b + k {
      SplitParts(m, m', epi, s, min, b, k);
    } else {
      SplitOther(m, m', epi, s, min, b, k, c);
    }
  }

  lemma SplitParts(m: seq<Word>, m': seq<Word>, epi: nat, s: set<nat>, min: nat, b: nat, k: nat)
    requires Tiled(m, epi, s, min) && SplitsTags(m, m', epi, s, min, b, k)
    ensures Block(m', epi, s + {b + k}, min, b) && Size(m', b) == k
    ensures Block(m', epi, s + {b + k}, min, b + k) && Size(m', b + k) == Size(m, b) - k
  {
    assert Block(m, epi, s, min, b);
  }

  lemma SplitOther(m: seq<Word>, m': seq<Word>, epi: nat, s: set<nat>, min: nat, b: nat, k: nat, c: nat)
    requires Tiled(m, epi, s, min) && SplitsTags(m, m', epi, s, min, b, k) && c in s && c != b && c != b + k
    ensures Block(m', epi, s + {b + k}, min, c) && Size(m', c) == Size(m, c)
  {
    assert Block(m, epi, s, min, c) && TagsAgree(m, m', c);
  }

  lemma SplitSeparate(m: seq<Word>, m': seq<Word>, epi: nat, s: set<nat>, min: nat, b: nat, k: nat, c: nat, d: nat)
    requires Tiled(m, epi, s, min) && SplitsTags(m, m', epi, s, min, b, k)
    requires c in s + {b + k} && d in s + {b + k}
    ensures Separate(m', c, d)
  {
    SplitBlock(m, m', epi, s, min, b, k, c);
    if c == b + k {
      assert d in s ==> Separate(m, b, d);
    } else if d == b + k {
      assert Separate(m, c, b) && Separate(m, b, c);
    } else {
      assert Separate(m, c, d);
    }
  }

  lemma SplitFollows(m: seq<Word>, m': seq<Word>, epi: nat, s: set<nat>, min: nat, b: nat, k: nat, c: nat)
    requires Tiled(m, epi, s, min) && SplitsTags(m, m', epi, s, min, b, k)
    requires c in s + {b + k, epi} && c != FIRST
    ensures FollowsBlock(m', s + {b + k}, c)
  {
    assert Block(m, epi, s, min, b);
    if c == b + Size(m, b) {
      assert m'[c - 1] / 2 == Size(m, b) - k;
    } else if c != b + k {
      assert FollowsBlock(m, s, c);
      var p := c - Size(m, c - 1);
      assert Block(m, epi, s, min, p) && TagsAgree(m, m', p);
    }
  }

  // m' is m with a block of k words over what was the epilogue, and the epilogue after it.
  ghost predicate ExtendsTags(m: seq<Word>, m': seq<Word>, epi: nat, s: set<nat>, min: nat, k: nat) {
    && 4 <= min <= k && k % 4 == 0 && epi + k < |m| == |m'| && FIRST <= epi
    && m'[FIRST - 1] == FENCE
    && (forall b {:trigger TagsAgree(m, m', b)} :: b in s ==> TagsAgree(m, m', b))
    && m'[epi] == m'[epi + k - 1] && m'[epi] / 2 == k && m'[epi + k] == FENCE
  }

  lemma ExtendTiles(m: seq<Word>, m': seq<Word>, epi: nat, s: set<nat>, min: nat, k: nat)
    requires Tiled(m, epi, s, min) && ExtendsTags(m, m', epi, s, min, k)
    ensures Tiled(m', epi + k, s + {epi}, min)
  {
    hide Block, FollowsBlock, Separate, TagsAgree;
    var s' := s + {epi};
    forall c | c in s' ensures Block(m', epi + k, s', min, c) {
      ExtendBlock(m, m', epi, s, min, k, c);
    }
    forall c, d | c in s' && d in s' ensures Separate(m', c, d) {
      ExtendSeparate(m, m', epi, s, min, k, c, d);
    }
    forall c | c in s' + {epi + k} && c != FIRST ensures FollowsBlock(m', s', c) {
      ExtendFollows(m, m', epi, s, min, k, c);
    }
  }

  lemma ExtendBlock(m: seq<Word>, m': seq<Word>, epi: nat, s: set<nat>, min: nat, k: nat, c: nat)
    requires Tiled(m, epi, s, min) && ExtendsTags(m, m', epi, s, min, k) && c in s + {epi}
    ensures Block(m', epi + k, s + {epi}, min, c)
    ensures c != epi ==> Size(m', c) == Size(m, c) && c + Size(m, c) <= epi
  {
    if c != epi {
      assert Block(m, epi, s, min, c) && TagsAgree(m, m', c);
    }
  }

  lemma ExtendSeparate(m: seq<Word>, m': seq<Word>, epi: nat, s: set<nat>, min: nat, k: nat, c: nat, d: nat)
    requires Tiled(m, epi, s, min) && ExtendsTags(m, m', epi, s, min, k)
    requires c in s + {epi} && d in s + {epi}
    ensures Separate(m', c, d)
  {
    ExtendBlock(m, m', epi, s, min, k, c);
    if c != epi && d != epi {
      assert Separate(m, c, d);
    } else if d != epi {
      assert Block(m, epi, s, min, d);
    }
  }

  lemma ExtendFollows(m: seq<Word>, m': seq<Word>, epi: nat, s: set<nat>, min: nat, k: nat, c: nat)
    requires Tiled(m, epi, s, min) && ExtendsTags(m, m', epi, s, min, k)
    requires c in s + {epi, epi + k} && c != FIRST
    ensures FollowsBlock(m', s + {epi}, c)
  {
    if c == epi + k {
      assert m'[c - 1] / 2 == k;
    } else {
      assert FollowsBlock(m, s, c);
      var p := c - Size(m, c - 1);
      assert Block(m, epi, s, min, p) && TagsAgree(m, m', p);
    }
  }
}
