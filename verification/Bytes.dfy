/** The bytes of words, lowest first. */
module Bytes {
  import opened Memory

  const BYTES_IN_WORD := 4

  type Byte = b: int | 0 <= b < 0x100

  function ByteOf(w: Word, r: nat): (b: Byte)
    requires r < BYTES_IN_WORD
  {
    if r == 0 then w % 0x100
    else if r == 1 then w / 0x100 % 0x100
    else if r == 2 then w / 0x1_0000 % 0x100
    else w / 0x100_0000
  }

  function WordOf(b0: Byte, b1: Byte, b2: Byte, b3: Byte): Word {
    b0 + 0x100 * b1 + 0x1_0000 * b2 + 0x100_0000 * b3
  }

  lemma BytesOfWord(b0: Byte, b1: Byte, b2: Byte, b3: Byte)
    ensures ByteOf(WordOf(b0, b1, b2, b3), 0) == b0 && ByteOf(WordOf(b0, b1, b2, b3), 1) == b1
    ensures ByteOf(WordOf(b0, b1, b2, b3), 2) == b2 && ByteOf(WordOf(b0, b1, b2, b3), 3) == b3
  {
    var w, low := WordOf(b0, b1, b2, b3), b0 + 0x100 * b1;
    assert w == low + 0x1_0000 * (b2 + 0x100 * b3) && low < 0x1_0000;
    assert w / 0x1_0000 == b2 + 0x100 * b3;
    assert w / 0x100 == b1 + 0x100 * (b2 + 0x100 * b3);
    assert w / 0x100_0000 == b3;
  }

  // w with the byte r replaced.
  function WithByte(w: Word, r: nat, b: Byte): (w': Word)
    requires r < BYTES_IN_WORD
    ensures forall q :: 0 <= q < BYTES_IN_WORD ==> ByteOf(w', q) == if q == r then b else ByteOf(w, q)
  {
    var b0, b1 := if r == 0 then b else ByteOf(w, 0), if r == 1 then b else ByteOf(w, 1);
    var b2, b3 := if r == 2 then b else ByteOf(w, 2), if r == 3 then b else ByteOf(w, 3);
    BytesOfWord(b0, b1, b2, b3);
    WordOf(b0, b1, b2, b3)
  }

  // Byte j of the memory that starts at word p.
  function ByteAt(m: seq<Word>, p: nat, j: nat): Byte
    requires p + j / BYTES_IN_WORD < |m|
  {
    ByteOf(m[p + j / BYTES_IN_WORD], j % BYTES_IN_WORD)
  }

  // The words that n bytes take.
  function WordsFor(n: nat): nat { (n + BYTES_IN_WORD - 1) / BYTES_IN_WORD }

  // Two bytes in the same word have different places there.
  lemma Places(i: nat, j: nat)
    requires i / BYTES_IN_WORD == j / BYTES_IN_WORD && i % BYTES_IN_WORD == j % BYTES_IN_WORD
    ensures i == j
  {
  }

  // The n bytes at p in m are at p' in m'.
  ghost predicate BytesCopied(m: seq<Word>, m': seq<Word>, p: nat, p': nat, n: nat) {
    && p + WordsFor(n) <= |m| && p' + WordsFor(n) <= |m'|
    && forall j :: 0 <= j < n ==> ByteAt(m', p', j) == ByteAt(m, p, j)
  }

  // n bytes at p have the value b.
  ghost predicate Filled(m: seq<Word>, p: nat, n: nat, b: Byte) {
    && p + WordsFor(n) <= |m|
    && forall j :: 0 <= j < n ==> ByteAt(m, p, j) == b
  }

  method SetByteAt(mem: array<Word>, p: nat, j: nat, b: Byte)
    requires p + j / BYTES_IN_WORD < mem.Length
    modifies mem
    ensures ByteAt(mem[..], p, j) == b
    ensures forall w :: 0 <= w < mem.Length && w != p + j / BYTES_IN_WORD ==> mem[w] == old(mem[w])
    ensures forall i :: 0 <= i && i != j && p + i / BYTES_IN_WORD < mem.Length ==>
      ByteAt(mem[..], p, i) == ByteAt(old(mem[..]), p, i)
  {
    var w := p + j / BYTES_IN_WORD;
    ghost var m := mem[..];
    mem[w] := WithByte(mem[w], j % BYTES_IN_WORD, b);
    forall i | 0 <= i && i != j && p + i / BYTES_IN_WORD < mem.Length ensures ByteAt(mem[..], p, i) == ByteAt(m, p, i) {
      if i / BYTES_IN_WORD == j / BYTES_IN_WORD && i % BYTES_IN_WORD == j % BYTES_IN_WORD {
        Places(i, j);
      }
    }
  }
}
