/** The growing byte buffer of pserv/src/buffer.h. */
module Buffers {
  import opened Ints

  newtype byte = x: int | 0 <= x < 256

  // The capacity, in the arithmetic of int, when room is made for n bytes after the len in use.
  function CapacityFor(len: nat, cap: nat, n: nat): int {
    if ToInt(len + n) >= cap then ToInt(cap * 2 + n) else cap
  }

  // The bytes fit already, or the doubled capacity fits an int.
  predicate GrowthFits(len: nat, cap: nat, n: nat) { len + n < cap || cap * 2 + n <= INT_MAX }

  // There is room for the bytes exactly if so; otherwise a sum has wrapped around.
  lemma RoomExactly(len: nat, cap: nat, n: nat)
    requires len <= cap <= INT_MAX && n <= INT_MAX
    ensures len + n <= CapacityFor(len, cap, n) <==> GrowthFits(len, cap, n)
    ensures GrowthFits(len, cap, n) ==> CapacityFor(len, cap, n) == if len + n < cap then cap else 2 * cap + n
  {
    hide ToInt;
    IntOf(len + n);
    IntOf(cap * 2 + n);
  }

  // ToInt for up to three times INT_MAX.
  lemma IntOf(i: nat)
    requires i <= 3 * INT_MAX
    ensures ToInt(i) == if i <= INT_MAX then i else i - 2 * (INT_MAX + 1)
  {
  }

  class Buffer {
    var storage: array<byte>
    var len: int  // the bytes in use come first
    var cap: int

    ghost predicate Valid()
      reads this
    {
      0 <= len <= cap <= INT_MAX && cap == storage.Length
    }

    ghost function Contents(): (s: seq<byte>)
      requires Valid()
      reads this, storage
      ensures |s| == len
    {
      storage[..len]
    }

    lemma Slice(from: int, to: int)
      requires Valid() && 0 <= from <= to <= len
      ensures storage[from..to] == Contents()[from..to]
    {
    }

    // buffer_init
    constructor (size: int)
      requires 0 <= size <= INT_MAX
      ensures Valid() && fresh(storage) && cap == size && Contents() == []
    {
      len, cap := 0, size;
      storage := new byte[size](_ => 0);
    }

    // buffer_init over a buffer in use; its old storage stays as it is
    method Init(size: int)
      requires 0 <= size <= INT_MAX
      modifies this
      ensures Valid() && fresh(storage) && cap == size && Contents() == []
    {
      len, cap := 0, size;
      storage := new byte[size](_ => 0);
    }

    // realloc
    method Reallocate(size: int)
      requires Valid() && len <= size <= INT_MAX
      modifies this
      ensures Valid() && fresh(storage) && cap == size && len == old(len) && Contents() == old(Contents())
    {
      var was := storage;
      var larger := new byte[size](i requires 0 <= i reads was => if i < was.Length then was[i] else 0);
      storage, cap := larger, size;
    }

    // buffer_reset: nothing is left, and no more storage than asked for
    method Reset(size: int)
      requires Valid() && 0 <= size <= INT_MAX
      modifies this
      ensures Valid() && Contents() == [] && cap == if old(cap) > size then size else old(cap)
      ensures storage == old(storage) || fresh(storage)
    {
      len := 0;
      if cap > size {
        Reallocate(size);
      }
    }

    // buffer_ensure_capacity: room for n bytes after those in use
    method EnsureCapacity(n: int) returns (at: int)
      requires Valid() && 0 <= n <= INT_MAX && GrowthFits(len, cap, n)
      modifies this
      ensures Valid() && at == len == old(len) && at + n <= cap && Contents() == old(Contents())
      ensures cap == if old(len) + n < old(cap) then old(cap) else 2 * old(cap) + n
      ensures storage == old(storage) || fresh(storage)
    {
      RoomExactly(len, cap, n);
      IntOf(len + n);
      hide ToInt;
      if ToInt(len + n) >= cap {
        Reallocate(ToInt(cap * 2 + n));
      }
      at := len;
    }

    lemma Joined(s: seq<byte>, a: seq<byte>, b: seq<byte>)
      requires |s| == |a| + |b| && forall i :: 0 <= i < |s| ==> s[i] == if i < |a| then a[i] else b[i - |a|]
      ensures s == a + b
    {
    }

    // buffer_append of mem[from..from + n]
    method Append(mem: array<byte>, from: int, n: int)
      requires Valid() && 0 <= from && 0 <= n && from + n <= mem.Length && mem != storage
      requires n <= INT_MAX && GrowthFits(len, cap, n)
      modifies this, storage
      ensures Valid() && Contents() == old(Contents()) + old(mem[from..from + n])
      ensures cap == if old(len) + n < old(cap) then old(cap) else 2 * old(cap) + n
      ensures storage == old(storage) || fresh(storage)
    {
      hide GrowthFits;
      ghost var was := Contents();
      var at := EnsureCapacity(n);
      assert storage[..at] == was;
      forall i | 0 <= i < n {
        storage[at + i] := mem[from + i];
      }
      len := len + n;
      Joined(storage[..len], was, mem[from..from + n]);
    }
  }
}
