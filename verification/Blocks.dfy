/** Used and free blocks of a heap that blocks tile. */
module Blocks {
  import opened Memory
  import opened Layout

  // Two free blocks are adjacent only if one of them is in x.
  ghost predicate NotBothFree(m: seq<Word>, s: set<nat>, x: set<nat>, b: nat) {
    b < |m| && var n := b + Size(m, b);
    n in s && n < |m| && !Used(m, b) && !Used(m, n) ==> b in x || n in x
  }

  ghost predicate Coalesced(m: seq<Word>, s: set<nat>, x: set<nat>) {
    forall b {:trigger NotBothFree(m, s, x, b)} :: b in s ==> NotBothFree(m, s, x, b)
  }

  ghost function UsedBlocks(m: seq<Word>, s: set<nat>): set<nat> { set b | b in s && b < |m| && Used(m, b) }

  ghost predicate KeepsBlock(m: seq<Word>, m': seq<Word>, b: nat) {
    b < |m| && 0 < Size(m, b) && b + Size(m, b) <= |m| && |m'| == |m| && m'[b..b + Size(m, b)] == m[b..b + Size(m, b)]
  }

  // No word of the blocks in u has changed.
  ghost predicate Keeps(m: seq<Word>, m': seq<Word>, u: set<nat>) {
    |m'| == |m| && forall b {:trigger KeepsBlock(m, m', b)} :: b in u ==> KeepsBlock(m, m', b)
  }

  lemma KeepsSelf(m: seq<Word>, epi: nat, s: set<nat>, min: nat)
    requires Tiled(m, epi, s, min)
    ensures Keeps(m, m, UsedBlocks(m, s))
  {
    SizesPositive(m, epi, s, min);
  }

  lemma KeepsTransitive(m: seq<Word>, m1: seq<Word>, m2: seq<Word>, u: set<nat>)
    requires Keeps(m, m1, u) && Keeps(m1, m2, u)
    ensures Keeps(m, m2, u)
  {
    forall b | b in u ensures KeepsBlock(m, m2, b) {
      assert KeepsBlock(m, m1, b);
      assert m1[b] == m1[b..b + Size(m, b)][0];
      assert KeepsBlock(m1, m2, b);
    }
  }

  ghost predicate SameOutside(m: seq<Word>, m': seq<Word>, lo: nat, hi: nat) {
    |m'| == |m| && forall w :: 0 <= w < |m| && !(lo <= w < hi) ==> m'[w] == m[w]
  }

  lemma BlocksDisjoint(m: seq<Word>, epi: nat, s: set<nat>, min: nat, b: nat, c: nat)
    requires Tiled(m, epi, s, min) && b in s && c in s && b != c
    ensures b < |m| && c < |m| && (b + Size(m, b) <= c || c + Size(m, c) <= b)
  {
    assert Separate(m, b, c) && Separate(m, c, b);
  }

  ghost function Tagged(m: seq<Word>, b: nat, size: nat, used: bool): seq<Word>
    requires 0 < size < 0x4000_0000 && b + size <= |m|
  {
    m[b := Pack(used, size)][b + size - 1 := Pack(used, size)]
  }

  lemma TaggedWords(m: seq<Word>, b: nat, size: nat, used: bool, w: nat)
    requires 0 < size < 0x4000_0000 && b + size <= |m| && w < |m| && w != b && w != b + size - 1
    ensures var m' := Tagged(m, b, size, used); |m'| == |m| && m'[w] == m[w] && m'[b] == Pack(used, size)
  {
  }

  // What is in x after the blocks from b to e have become one.
  ghost function PendingJoined(x: set<nat>, b: nat, e: nat, used: bool): set<nat> {
    (set c | c in x && !(b <= c < e)) + if used then {} else {b}
  }

  lemma JoinedUsed(m: seq<Word>, m': seq<Word>, epi: nat, s: set<nat>, min: nat, b: nat, e: nat)
    requires Tiled(m, epi, s, min) && JoinsTags(m, m', epi, s, b, e)
    ensures UsedBlocks(m', Joined(s, b, e)) == Outside(UsedBlocks(m, s), b, e) + if Used(m', b) then {b} else {}
  {
    forall c | c in Joined(s, b, e) && c != b ensures c < |m| && m'[c] == m[c] {
      assert TagsAgree(m, m', c);
    }
    forall c | c in s ensures c < |m| {
      assert Block(m, epi, s, min, c);
    }
  }

  // Joined blocks stay apart from other free ones if the neighbours of the joined block are used.
  lemma JoinedCoalesced(m: seq<Word>, m': seq<Word>, epi: nat, s: set<nat>, min: nat, x: set<nat>, b: nat, e: nat)
    requires Tiled(m, epi, s, min) && JoinsTags(m, m', epi, s, b, e) && Coalesced(m, s, x)
    ensures Coalesced(m', Joined(s, b, e), PendingJoined(x, b, e, Used(m', b)))
  {
    var s', x' := Joined(s, b, e), PendingJoined(x, b, e, Used(m', b));
    forall c | c in s' ensures NotBothFree(m', s', x', c) {
      JoinBlock(m, m', epi, s, min, b, e, c);
      if c != b {
        assert NotBothFree(m, s, x, c) && TagsAgree(m, m', c);
        var n := c + Size(m, c);
        if n in s' && n != b {
          assert TagsAgree(m, m', n);
        }
      }
    }
  }

  ghost function PendingSplit(x: set<nat>, b: nat, k: nat, used: bool, restUsed: bool): set<nat> {
    x - {b} + (if used then {} else {b}) + if restUsed then {} else {b + k}
  }

  lemma NotInside(m: seq<Word>, epi: nat, s: set<nat>, min: nat, b: nat, k: nat)
    requires Tiled(m, epi, s, min) && b in s && b < |m| && 0 < k < Size(m, b)
    ensures b + k !in s
  {
    forall c | c in s ensures c != b + k {
      assert Separate(m, b, c);
    }
  }

  lemma SplitCoalesced(m: seq<Word>, m': seq<Word>, epi: nat, s: set<nat>, min: nat, x: set<nat>, b: nat, k: nat)
    requires Tiled(m, epi, s, min) && Coalesced(m, s, x)
    requires SplitsTags(m, m', epi, s, min, b, k)
    ensures Coalesced(m', s + {b + k}, PendingSplit(x, b, k, Used(m', b), Used(m', b + k)))
  {
    var s', x' := s + {b + k}, PendingSplit(x, b, k, Used(m', b), Used(m', b + k));
    NotInside(m, epi, s, min, b, k);
    forall c | c in s' ensures NotBothFree(m', s', x', c) {
      SplitBlock(m, m', epi, s, min, b, k, c);
      if c != b && c != b + k {
        assert NotBothFree(m, s, x, c) && TagsAgree(m, m', c);
        var n := c + Size(m, c);
        if n in s && n != b {
          assert TagsAgree(m, m', n);
        }
      }
    }
  }

  // A pending block whose neighbours are used is coalesced.
  lemma SettledCoalesced(m: seq<Word>, epi: nat, s: set<nat>, min: nat, x: set<nat>, b: nat)
    requires Tiled(m, epi, s, min) && Coalesced(m, s, x) && b in s && b < |m|
    requires 0 < b && Used(m, b - 1)
    requires b + Size(m, b) == epi || (b + Size(m, b) < |m| && Used(m, b + Size(m, b)))
    ensures Coalesced(m, s, x - {b})
  {
    forall c | c in s ensures NotBothFree(m, s, x - {b}, c) {
      assert NotBothFree(m, s, x, c) && Block(m, epi, s, min, c);
      assert Block(m, epi, s, min, b);
      assert Separate(m, c, b);
    }
  }

  lemma SizesPositive(m: seq<Word>, epi: nat, s: set<nat>, min: nat)
    requires Tiled(m, epi, s, min)
    ensures forall b :: b in s ==> b < |m| && 0 < Size(m, b) && b + Size(m, b) <= epi && FIRST <= b
  {
    forall b | b in s ensures b < |m| && 0 < Size(m, b) && b + Size(m, b) <= epi && FIRST <= b {
      assert Block(m, epi, s, min, b);
    }
  }

  lemma CoalescedMore(m: seq<Word>, s: set<nat>, x: set<nat>, x': set<nat>)
    requires Coalesced(m, s, x) && x <= x'
    ensures Coalesced(m, s, x')
  {
    forall b | b in s ensures NotBothFree(m, s, x', b) {
      assert NotBothFree(m, s, x, b);
    }
  }

  ghost function Outside(u: set<nat>, b: nat, e: nat): set<nat> { set c | c in u && !(b <= c < e) }

  lemma TaggedJoins(m: seq<Word>, epi: nat, s: set<nat>, min: nat, b: nat, e: nat, used: bool)
    requires Tiled(m, epi, s, min) && b in s && e in s + {epi} && b < e < FIRST + 0x4000_0000
    requires FIRST <= b && e <= epi && (e - b) % 4 == 0
    ensures
      var m' := Tagged(m, b, e - b, used);
      && JoinsTags(m, m', epi, s, b, e) && Used(m', b) == used
      && Keeps(m, m', Outside(UsedBlocks(m, s), b, e))
  {
    var m' := Tagged(m, b, e - b, used);
    forall c | c in s && !(b <= c < e) ensures TagsAgree(m, m', c) && KeepsBlock(m, m', c) {
      assert Block(m, epi, s, min, c) && Separate(m, c, b);
    }
  }

  lemma TaggedSplits(m: seq<Word>, epi: nat, s: set<nat>, min: nat, b: nat, k: nat)
    requires Tiled(m, epi, s, min) && b in s && b < |m| && Size(m, b) < 0x4000_0000 && !Used(m, b)
    requires min <= k && k % 4 == 0 && k + min <= Size(m, b)
    requires b + Size(m, b) <= epi && FIRST <= b
    ensures
      var m' := Tagged(Tagged(m, b, k, true), b + k, Size(m, b) - k, false);
      && SplitsTags(m, m', epi, s, min, b, k) && Used(m', b) && !Used(m', b + k)
      && Keeps(m, m', UsedBlocks(m, s)) && |m'| == |m|
  {
    var m' := Tagged(Tagged(m, b, k, true), b + k, Size(m, b) - k, false);
    forall c | c in s && c != b ensures TagsAgree(m, m', c) && KeepsBlock(m, m', c) {
      assert Block(m, epi, s, min, c);
      BlocksDisjoint(m, epi, s, min, b, c);
    }
  }

  lemma PayloadOutside(m: seq<Word>, m': seq<Word>, epi: nat, s: set<nat>, min: nat, b: nat, lo: nat, hi: nat, c: nat)
    requires Tiled(m, epi, s, min) && b in s && b < |m| && c in s
    requires b < lo && hi < b + Size(m, b) && SameOutside(m, m', lo, hi)
    ensures TagsAgree(m, m', c) && (c != b ==> KeepsBlock(m, m', c))
  {
    assert Block(m, epi, s, min, c);
    if c != b {
      BlocksDisjoint(m, epi, s, min, b, c);
    }
  }

  // The block b itself.
  lemma BlockExtent(m: seq<Word>, epi: nat, s: set<nat>, min: nat, b: nat)
    requires Tiled(m, epi, s, min) && b in s
    ensures FIRST <= b < epi < |m| && min <= Size(m, b) && b + Size(m, b) in s + {epi}
    ensures b + Size(m, b) <= epi && b % 4 == 3 && Size(m, b) % 4 == 0
    ensures forall d :: d in s && b <= d < b + Size(m, b) ==> d == b
  {
    assert Block(m, epi, s, min, b);
    forall d | d in s && b <= d < b + Size(m, b) ensures d == b {
      assert Separate(m, b, d);
    }
  }

  // Joining only pending blocks leaves the used ones as they are.
  lemma JoinOfPending(m: seq<Word>, s: set<nat>, x: set<nat>, b: nat, e: nat)
    requires forall c :: c in s && b <= c < e ==> c < |m| && c in x && !Used(m, c)
    requires forall c :: c in x ==> b <= c < e
    ensures Outside(UsedBlocks(m, s), b, e) == UsedBlocks(m, s)
    ensures PendingJoined(x, b, e, false) == {b} && PendingJoined(x, b, e, false) - {b} == {}
  {
  }

  lemma SameTagsTransitive(m: seq<Word>, m1: seq<Word>, m2: seq<Word>, epi: nat, s: set<nat>)
    requires SameTags(m, m1, epi, s) && SameTags(m1, m2, epi, s)
    ensures SameTags(m, m2, epi, s)
  {
    forall b | b in s ensures TagsAgree(m, m2, b) {
      assert TagsAgree(m, m1, b) && TagsAgree(m1, m2, b);
    }
  }

  // Retagging one block joins nothing.
  lemma JoinOfOne(m: seq<Word>, epi: nat, s: set<nat>, min: nat, b: nat)
    requires Tiled(m, epi, s, min) && b in s && b < |m|
    ensures Joined(s, b, b + Size(m, b)) == s
    ensures forall d :: d in s && b <= d < b + Size(m, b) ==> d == b
  {
    BlockExtent(m, epi, s, min, b);
  }

  lemma JoinOfOneState(m: seq<Word>, s: set<nat>, b: nat, e: nat)
    requires b < e && forall d :: d in s && b <= d < e ==> d == b
    ensures Outside(UsedBlocks(m, s), b, e) == UsedBlocks(m, s) - {b}
    ensures PendingJoined({b}, b, e, true) == {} && PendingJoined({}, b, e, false) == {b}
  {
  }

  // The payload at p: the words between the tags of its block.
  ghost function PayloadOf(m: seq<Word>, p: nat): seq<Word> {
    if 0 < p <= |m| && 2 <= Size(m, p - 1) && p + Size(m, p - 1) - 2 <= |m| then m[p..p + Size(m, p - 1) - 2] else []
  }

  // What the payload at p in m holds is at the start of the payload at p' in m'.
  ghost predicate PayloadKept(m: seq<Word>, m': seq<Word>, p: nat, p': nat) {
    PayloadOf(m, p) <= PayloadOf(m', p')
  }

  ghost predicate SamePayloads(m: seq<Word>, m': seq<Word>, ps: set<nat>) {
    forall p :: p in ps ==> PayloadOf(m', p) == PayloadOf(m, p)
  }

  ghost function Payloads(u: set<nat>): set<nat> { set b | b in u :: b + 1 }

  lemma KeepsPayloads(m: seq<Word>, m': seq<Word>, u: set<nat>)
    requires Keeps(m, m', u)
    ensures SamePayloads(m, m', Payloads(u))
    ensures forall b :: b in u ==> b < |m| == |m'| && m'[b] == m[b]
  {
    forall b | b in u ensures PayloadOf(m', b + 1) == PayloadOf(m, b + 1) && b < |m| && m'[b] == m[b] {
      KeptBlock(m, m', u, b);
    }
  }

  lemma KeptBlock(m: seq<Word>, m': seq<Word>, u: set<nat>, b: nat)
    requires Keeps(m, m', u) && b in u
    ensures PayloadOf(m', b + 1) == PayloadOf(m, b + 1) && b < |m| == |m'| && m'[b] == m[b]
    ensures b + Size(m, b) <= |m| && forall w :: b <= w < b + Size(m, b) ==> m'[w] == m[w]
  {
    assert KeepsBlock(m, m', b);
    forall w | b <= w < b + Size(m, b) ensures m'[w] == m[w] {
      assert m'[w] == m'[b..b + Size(m, b)][w - b] == m[b..b + Size(m, b)][w - b];
    }
  }

  // live gives the bytes asked for of each payload in use, and each has as many.
  ghost predicate LiveMatches(m: seq<Word>, u: set<nat>, live: map<nat, nat>) {
    && live.Keys == Payloads(u)
    && forall p :: p in live ==> 0 < p <= |m| && live[p] + 8 <= 4 * Size(m, p - 1)
  }

  lemma LivePayload(m: seq<Word>, epi: nat, s: set<nat>, min: nat, live: map<nat, nat>, p: nat)
    requires Tiled(m, epi, s, min) && LiveMatches(m, UsedBlocks(m, s), live) && p in live
    ensures 0 < p && p - 1 in s && p - 1 < |m| && Size(m, p - 1) == |PayloadOf(m, p)| + 2
    ensures p % 4 == 0 && HEAP_LO <= p && p + |PayloadOf(m, p)| < epi && live[p] <= 4 * |PayloadOf(m, p)|
  {
    assert p in Payloads(UsedBlocks(m, s));
    BlockExtent(m, epi, s, min, p - 1);
  }

  // Payloads in use are aligned, lie in the heap, have the bytes asked for, and do not overlap.
  lemma LivePayloads(m: seq<Word>, epi: nat, s: set<nat>, min: nat, live: map<nat, nat>)
    requires Tiled(m, epi, s, min) && LiveMatches(m, UsedBlocks(m, s), live)
    ensures forall p :: p in live ==>
      p % 4 == 0 && HEAP_LO <= p && p + |PayloadOf(m, p)| < epi && live[p] <= 4 * |PayloadOf(m, p)|
    ensures forall p, q :: p in live && q in live && p < q ==> p + |PayloadOf(m, p)| < q
  {
    hide LiveMatches, PayloadOf, UsedBlocks, Tiled;
    forall p | p in live
      ensures p % 4 == 0 && HEAP_LO <= p && p + |PayloadOf(m, p)| < epi && live[p] <= 4 * |PayloadOf(m, p)|
    {
      LivePayload(m, epi, s, min, live, p);
    }
    forall p, q | p in live && q in live && p < q ensures p + |PayloadOf(m, p)| < q {
      LivePayload(m, epi, s, min, live, p);
      LivePayload(m, epi, s, min, live, q);
      BlocksDisjoint(m, epi, s, min, p - 1, q - 1);
    }
  }

  // The k words at p in m are at p' in m'.
  ghost predicate Copied(m: seq<Word>, m': seq<Word>, p: nat, p': nat, k: nat) {
    p + k <= |m| && p' + k <= |m'| && m'[p'..p' + k] == m[p..p + k]
  }

  // A used block that grows over pending neighbours is the only used one between b and e.
  lemma GrowthOfOne(m: seq<Word>, s: set<nat>, x: set<nat>, b: nat, e: nat, old_b: nat)
    requires b <= old_b < e && old_b < |m| && old_b in s && Used(m, old_b)
    requires forall c :: c in s && b <= c < e && c != old_b ==> c < |m| && c in x && !Used(m, c)
    requires forall c :: c in x ==> b <= c < e
    ensures Outside(UsedBlocks(m, s), b, e) == UsedBlocks(m, s) - {old_b}
    ensures PendingJoined(x, b, e, true) == {}
  {
  }

  // Words of a kept block are still there when only its end tags and the words outside it have changed.
  lemma KeptWords(m: seq<Word>, m': seq<Word>, u: set<nat>, b: nat)
    requires Keeps(m, m', u) && b in u
    ensures b < |m| && 0 < Size(m, b) && Copied(m, m', b, b, Size(m, b)) && |m'| == |m| && m'[b] == m[b]
  {
    assert KeepsBlock(m, m', b);
    assert m'[b] == m'[b..b + Size(m, b)][0];
  }

  // Tags around it leave the payload of a block that has grown.
  lemma TaggedKeepsPayload(m: seq<Word>, b: nat, size: nat, p: nat, k: nat)
    requires 0 < size < 0x4000_0000 && b + size <= |m| && b < p && p + k < b + size
    ensures Copied(m, Tagged(m, b, size, true), p, p, k)
  {
  }

  lemma KeepsLess(m: seq<Word>, m': seq<Word>, u: set<nat>, v: set<nat>)
    requires Keeps(m, m', u) && v <= u
    ensures Keeps(m, m', v)
  {
  }

  lemma SplitUsed(m: seq<Word>, m': seq<Word>, epi: nat, s: set<nat>, min: nat, b: nat, k: nat)
    requires Tiled(m, epi, s, min) && SplitsTags(m, m', epi, s, min, b, k)
    ensures UsedBlocks(m', s + {b + k})
         == UsedBlocks(m, s) - {b} + (if Used(m', b) then {b} else {}) + if Used(m', b + k) then {b + k} else {}
  {
    hide Block, FollowsBlock, Separate;
    forall c | c in s ensures c < |m| {
      assert c != b ==> TagsAgree(m, m', c);
    }
    forall c | c in s && c != b ensures m'[c] == m[c] && c != b + k {
      assert TagsAgree(m, m', c);
      SplitBlock(m, m', epi, s, min, b, k, c);
      NotInside(m, epi, s, min, b, k);
    }
  }

  lemma ExtendCoalesced(m: seq<Word>, m': seq<Word>, epi: nat, s: set<nat>, min: nat, x: set<nat>, k: nat)
    requires Tiled(m, epi, s, min) && Coalesced(m, s, x) && ExtendsTags(m, m', epi, s, min, k) && !Used(m', epi)
    ensures Coalesced(m', s + {epi}, x + {epi}) && UsedBlocks(m', s + {epi}) == UsedBlocks(m, s)
  {
    forall c | c in s ensures c < epi && m'[c] == m[c] {
      assert Block(m, epi, s, min, c) && TagsAgree(m, m', c);
    }
    forall c | c in s + {epi} ensures NotBothFree(m', s + {epi}, x + {epi}, c) {
      if c != epi {
        assert NotBothFree(m, s, x, c);
      }
    }
  }

  // A new free block over the old epilogue, with a new epilogue after it.
  lemma TaggedExtends(m: seq<Word>, epi: nat, s: set<nat>, min: nat, k: nat)
    requires Tiled(m, epi, s, min) && epi + k < |m| && min <= k < 0x4000_0000 && k % 4 == 0
    ensures
      var m' := Tagged(m, epi, k, false)[epi + k := FENCE];
      && ExtendsTags(m, m', epi, s, min, k) && Keeps(m, m', UsedBlocks(m, s)) && Size(m', epi) == k && !Used(m', epi)
  {
    var m' := Tagged(m, epi, k, false)[epi + k := FENCE];
    forall c | c in s ensures TagsAgree(m, m', c) && KeepsBlock(m, m', c) {
      assert Block(m, epi, s, min, c);
    }
  }

  // The tags on both sides of a block boundary are kept with the tags of all blocks.
  lemma TagsKeptAround(m: seq<Word>, m': seq<Word>, epi: nat, s: set<nat>, min: nat, c: nat)
    requires Tiled(m, epi, s, min) && SameTags(m, m', epi, s) && c in s + {epi}
    ensures FIRST <= c < |m| == |m'| && m'[c] == m[c] && m'[c - 1] == m[c - 1]
  {
    assert c in s ==> TagsAgree(m, m', c) && Block(m, epi, s, min, c);
    if c != FIRST {
      assert FollowsBlock(m, s, c);
      var p := c - Size(m, c - 1);
      assert TagsAgree(m, m', p) && Block(m, epi, s, min, p);
    }
  }

  // The block before c, when it is free, and what comes before that.
  lemma FreeBlockBefore(m: seq<Word>, epi: nat, s: set<nat>, min: nat, x: set<nat>, c: nat)
    requires Tiled(m, epi, s, min) && Coalesced(m, s, x) && c in s + {epi}
    ensures FIRST <= c < |m|
    ensures !Used(m, c - 1) ==>
      && m[c - 1] / 2 <= c
      && var p := c - Size(m, c - 1);
      && p in s && FIRST <= p && p + min <= c && m[p] == m[c - 1] && p + Size(m, p) == c
      && (forall d :: d in s && p <= d < c ==> d == p)
      && (p !in x && x <= {c} ==> Used(m, p - 1))
  {
    assert c in s ==> Block(m, epi, s, min, c);
    if !Used(m, c - 1) {
      assert FollowsBlock(m, s, c);
      var p := c - Size(m, c - 1);
      assert Block(m, epi, s, min, p);
      forall d | d in s && p <= d < c ensures d == p {
        assert Separate(m, p, d);
      }
      if p != FIRST {
        assert FollowsBlock(m, s, p);
        var q := p - Size(m, p - 1);
        assert Block(m, epi, s, min, q) && NotBothFree(m, s, x, q);
      }
    }
  }

  // The block at n, when it is free, and what comes after it.
  lemma FreeBlockAfter(m: seq<Word>, epi: nat, s: set<nat>, min: nat, x: set<nat>, n: nat)
    requires Tiled(m, epi, s, min) && Coalesced(m, s, x) && n in s + {epi}
    ensures FIRST <= n <= epi < |m| && Used(m, epi)
    ensures !Used(m, n) ==>
      && n in s && min <= Size(m, n) && n + Size(m, n) in s + {epi} && n + Size(m, n) <= epi
      && (forall d :: d in s && n <= d < n + Size(m, n) ==> d == n)
      && (n !in x && n + Size(m, n) !in x ==> Used(m, n + Size(m, n)))
  {
    assert n in s ==> Block(m, epi, s, min, n);
    if !Used(m, n) {
      forall d | d in s && n <= d < n + Size(m, n) ensures d == n {
        assert Separate(m, n, d);
      }
      assert NotBothFree(m, s, x, n);
      assert n + Size(m, n) in s ==> Block(m, epi, s, min, n + Size(m, n));
    }
  }

  lemma StillLive(m: seq<Word>, m': seq<Word>, u: set<nat>, live: map<nat, nat>)
    requires LiveMatches(m, u, live) && Keeps(m, m', u)
    ensures LiveMatches(m', u, live)
  {
    KeepsPayloads(m, m', u);
  }

  lemma KeepsLive(m: seq<Word>, m': seq<Word>, u: set<nat>, live: map<nat, nat>)
    requires LiveMatches(m, u, live) && Keeps(m, m', u)
    ensures SamePayloads(m, m', live.Keys)
  {
    KeepsPayloads(m, m', u);
  }

  lemma InPayloads(u: set<nat>, q: nat)
    ensures q in Payloads(u) <==> 0 < q && q - 1 in u
  {
    if 0 < q && q - 1 in u {
      assert q == (q - 1) + 1;
    }
  }

  lemma OtherPayloads(u: set<nat>, b: nat, p: nat)
    requires b in u
    ensures Payloads(u - {b}) == Payloads(u) - {b + 1}
    ensures Payloads(u - {b} + {p}) == Payloads(u) - {b + 1} + {p + 1}
    ensures p !in u ==> p + 1 !in Payloads(u)
  {
    hide Payloads;
    forall q: nat ensures
      (q in Payloads(u) <==> 0 < q && q - 1 in u) &&
      (q in Payloads(u - {b}) <==> 0 < q && q - 1 in u - {b}) &&
      (q in Payloads(u - {b} + {p}) <==> 0 < q && q - 1 in u - {b} + {p})
    {
      InPayloads(u, q);
      InPayloads(u - {b}, q);
      InPayloads(u - {b} + {p}, q);
    }
  }

  // One more payload in use.
  lemma LiveWith(m: seq<Word>, m': seq<Word>, u: set<nat>, live: map<nat, nat>, b: nat, size: nat)
    requires LiveMatches(m, u, live) && Keeps(m, m', u) && b !in u && b < |m'| && size + 8 <= 4 * Size(m', b)
    ensures b + 1 !in live && LiveMatches(m', u + {b}, live[b + 1 := size])
  {
    hide Keeps, Payloads, PayloadOf, SamePayloads;
    KeepsPayloads(m, m', u);
    InPayloads(u, b + 1);
    forall q: nat ensures q in Payloads(u + {b}) <==> q in Payloads(u) + {b + 1} {
      InPayloads(u, q);
      InPayloads(u + {b}, q);
    }
    forall q | q in live ensures 0 < q <= |m'| && live[q] + 8 <= 4 * Size(m', q - 1) {
      InPayloads(u, q);
    }
  }

  // One payload in use less.
  lemma LiveWithout(m: seq<Word>, m': seq<Word>, u: set<nat>, live: map<nat, nat>, b: nat)
    requires LiveMatches(m, u, live) && Keeps(m, m', u - {b}) && b in u
    ensures LiveMatches(m', u - {b}, live - {b + 1}) && SamePayloads(m, m', live.Keys - {b + 1})
  {
    hide Keeps, Payloads, PayloadOf, SamePayloads;
    KeepsPayloads(m, m', u - {b});
    OtherPayloads(u, b, b);
    forall q | q in live && q != b + 1 ensures 0 < q <= |m'| && live[q] + 8 <= 4 * Size(m', q - 1) {
      InPayloads(u, q);
      assert q - 1 in u - {b};
    }
  }

  lemma StillLiveBut(m: seq<Word>, m': seq<Word>, u: set<nat>, live: map<nat, nat>, b: nat)
    requires LiveMatches(m, u, live) && Keeps(m, m', u - {b})
    requires b < |m| == |m'| && Size(m', b) >= Size(m, b)
    ensures LiveMatches(m', u, live)
  {
    KeepsPayloads(m, m', u - {b});
  }

  lemma KeepsOthers(m: seq<Word>, m': seq<Word>, u: set<nat>, live: map<nat, nat>, b: nat)
    requires LiveMatches(m, u, live) && Keeps(m, m', u - {b})
    ensures SamePayloads(m, m', live.Keys - {b + 1})
  {
    KeepsPayloads(m, m', u - {b});
    hide Keeps, Payloads, SamePayloads;
    forall q: nat | q in live.Keys - {b + 1} ensures q in Payloads(u - {b}) {
      InPayloads(u, q);
      InPayloads(u - {b}, q);
    }
    SameOfFewer(m, m', Payloads(u - {b}), live.Keys - {b + 1});
  }

  lemma SameOfFewer(m: seq<Word>, m': seq<Word>, ps: set<nat>, qs: set<nat>)
    requires SamePayloads(m, m', ps) && forall q :: q in qs ==> q in ps
    ensures SamePayloads(m, m', qs)
  {
  }
}
