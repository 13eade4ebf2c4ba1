/** Sizes of requests, in the arithmetic of size_t and int. */
module Requests {
  import opened Ints
  import opened Layout

  const WSIZE := 4  // bytes in a word

  // The words that mem_sbrk is asked for with the bytes of so many, and the size that a tag has then.
  function SbrkWords(words: nat): int { ToInt(words * WSIZE) / WSIZE }

  function SizeField(words: nat): int { ToInt31(ToInt(words)) }

  // The bytes of this many words do not fit an int, and what is left of them does not look negative.
  predicate Truncated(words: nat) { words * WSIZE > INT_MAX && ToInt(words * WSIZE) >= 0 }

  // With the heap up to brk, mem_sbrk gets some words, but fewer than it was meant to.
  predicate GetsLess(brk: nat, words: nat) {
    Truncated(words) && brk + SbrkWords(words) <= HEAP_MAX
  }

  const ALIGNMENT := 16

  function Align(size: nat): nat { (size + ALIGNMENT - 1) % SIZE_VALUES / ALIGNMENT * ALIGNMENT }

  function Max(x: nat, y: nat): nat { if x > y then x else y }

  // The bytes of a block for a request, in the arithmetic of size_t.
  function BlockBytes(size: nat): nat { Align((size + 2 * WSIZE) % SIZE_VALUES) }

  // The arithmetic has wrapped around.
  predicate Overflows(size: nat) { BlockBytes(size) < size }

  // The arithmetic wraps around exactly for the sizes with no room for the tags and the rounding.
  lemma OverflowsExactly(size: nat)
    requires size < SIZE_VALUES
    ensures Overflows(size) <==> size + 2 * WSIZE + ALIGNMENT > SIZE_VALUES
  {
    hide Align;
    var n := (size + 2 * WSIZE) % SIZE_VALUES;
    AlignRounds(n);
  }

  lemma AlignRounds(n: nat)
    requires n < SIZE_VALUES
    ensures n + ALIGNMENT <= SIZE_VALUES ==> n <= Align(n) < n + ALIGNMENT && Align(n) % ALIGNMENT == 0
    ensures n + ALIGNMENT > SIZE_VALUES ==> Align(n) == 0
  {
  }

  // What mem_sbrk does with the bytes of so many words, when it does not get less.
  lemma SbrkServes(brk: nat, words: nat)
    requires 0 < words && !GetsLess(brk, words)
    ensures
      var incr := ToInt(words * WSIZE);
      if brk + words > HEAP_MAX || words * WSIZE > INT_MAX then incr < 0 || brk + incr / WSIZE > HEAP_MAX
      else incr == words * WSIZE
    ensures ToInt(words * WSIZE) % WSIZE == 0
    ensures words * WSIZE <= INT_MAX ==> SizeField(words) == words
  {
  }

  // In any case: nothing, what is meant, or, when it gets less, what the count says as an int.
  lemma SbrkGets(brk: nat, words: nat)
    requires 0 < words && words % 4 == 0
    ensures ToInt(words * WSIZE) % WSIZE == 0
    ensures
      var incr := ToInt(words * WSIZE);
      if GetsLess(brk, words) then 0 <= incr && brk + incr / WSIZE <= HEAP_MAX && SbrkWords(words) % 4 == 0
      else if brk + words > HEAP_MAX || words * WSIZE > INT_MAX then incr < 0 || brk + incr / WSIZE > HEAP_MAX
      else incr == words * WSIZE && SizeField(words) == words
  {
    if !GetsLess(brk, words) {
      SbrkServes(brk, words);
    }
  }

  // The words of an aligned size, or the minimum.
  lemma AlignedWords(bytes: nat, min: nat)
    requires bytes % ALIGNMENT == 0
    ensures Max(min, bytes / WSIZE) * WSIZE >= bytes
    ensures Max(min, bytes / WSIZE) == min || Max(min, bytes / WSIZE) * WSIZE == bytes
  {
  }

  lemma BytesSuffice(size: nat)
    requires size < SIZE_VALUES && !Overflows(size)
    ensures size + 2 * WSIZE <= BlockBytes(size) < size + 2 * WSIZE + ALIGNMENT && BlockBytes(size) % ALIGNMENT == 0
  {
    hide Align, Overflows;
    OverflowsExactly(size);
    assert (size + 2 * WSIZE) % SIZE_VALUES == size + 2 * WSIZE;
    AlignRounds(size + 2 * WSIZE);
  }
}
