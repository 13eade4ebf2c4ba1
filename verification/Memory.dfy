module Memory {
  const WORD_VALUES := 0x1_0000_0000

  type Word = w: int | 0 <= w < WORD_VALUES

  // Addresses count words; a pointer takes two of them, low half first.
  function Ptr(m: seq<Word>, a: nat): nat
    requires a + 1 < |m|
  {
    m[a] + m[a + 1] * WORD_VALUES
  }

  // Everything but the two words of the pointer at a is the same in m and m'.
  ghost predicate SameBut(m: seq<Word>, m': seq<Word>, a: nat) {
    |m'| == |m| && forall i :: 0 <= i < |m| && i != a && i != a + 1 ==> m'[i] == m[i]
  }

  method Load(mem: array<Word>, a: nat) returns (p: nat)
    requires a + 1 < mem.Length
    ensures p == Ptr(mem[..], a)
  {
    p := mem[a] + mem[a + 1] * WORD_VALUES;
  }

  method Store(mem: array<Word>, a: nat, p: nat)
    requires a + 1 < mem.Length && p < WORD_VALUES * WORD_VALUES
    modifies mem
    ensures SameBut(old(mem[..]), mem[..], a) && Ptr(mem[..], a) == p
  {
    mem[a] := p % WORD_VALUES;
    mem[a + 1] := p / WORD_VALUES;
  }
}
