/** The checks that malloclab/mdriver.c makes while it runs a trace, none of which ever fails. */
module Driver {
  import opened Memory
  import opened Bytes
  import opened Layout
  import opened Ints
  import opened Requests
  import opened Blocks
  import opened Heap
  import Fit
  import opened FreeLists
  import opened Allocator
  import opened AllocatorTheorems

  datatype Op = Alloc(index: nat, size: nat) | Realloc(index: nat, size: nat) | Free(index: nat)

  datatype Outcome =
    | Passed | MallocFailed | ReallocFailed | GrewByFour | Misaligned | OutsideHeap | Overlapping | DataLost

  // The extent of a payload, in bytes, inclusive.
  datatype Range = Range(lo: nat, hi: int)

  // Requests name blocks that are there, or not there yet, and sizes are ints.
  ghost predicate WellFormed(ops: seq<Op>, indices: set<nat>) {
    ops == [] ||
    match ops[0]
    case Alloc(i, n) => i !in indices && n <= INT_MAX && WellFormed(ops[1..], indices + {i})
    case Realloc(i, n) => i in indices && n <= INT_MAX && WellFormed(ops[1..], indices)
    case Free(i) => i in indices && WellFormed(ops[1..], indices - {i})
  }

  // What memset takes of an index, and what comparing a char with an int makes of it: char is signed.
  function LowByte(index: nat): Byte { index % 0x100 }

  function SignedChar(b: Byte): int { if b < 0x80 then b else b - 0x100 }

  // The ranges are those of the live payloads, each of which has one.
  ghost predicate Recorded(ranges: seq<Range>, v: map<nat, nat>) {
    && (forall k :: 0 <= k < |ranges| ==> RecordOf(ranges[k], v))
    && (forall j, k :: 0 <= j < k < |ranges| ==> ranges[j].lo != ranges[k].lo)
    && (forall p :: p in v ==> RangeOf(p, v[p]) in ranges)
  }

  function RangeOf(p: nat, size: nat): Range { Range(p * WSIZE, p * WSIZE + size - 1) }

  predicate RecordOf(r: Range, v: map<nat, nat>) {
    r.lo % WSIZE == 0 && r.lo / WSIZE in v && r == RangeOf(r.lo / WSIZE, v[r.lo / WSIZE])
  }

  // The payload of request index is live and holds the pattern of the index.
  ghost predicate TracksOne(m: seq<Word>, v: map<nat, nat>, blocks: map<nat, nat>, sizes: map<nat, nat>, i: nat)
    requires i in blocks
  {
    && i in sizes && blocks[i] in v && 0 < sizes[i] == v[blocks[i]] <= WSIZE * |PayloadOf(m, blocks[i])|
    && Filled(m, blocks[i], sizes[i], LowByte(i))
  }

  ghost predicate Tracks(m: seq<Word>, v: map<nat, nat>, blocks: map<nat, nat>, sizes: map<nat, nat>) {
    && (forall i {:trigger TracksOne(m, v, blocks, sizes, i)} :: i in blocks ==> TracksOne(m, v, blocks, sizes, i))
    && (forall i, j :: i in blocks && j in blocks && i != j ==> blocks[i] != blocks[j])
  }

  // The sizes of the blocks that are there after the first k requests.
  function Asked(ops: seq<Op>, k: nat): map<nat, nat>
    requires k <= |ops|
  {
    if k == 0 then map[]
    else
      match ops[k - 1]
      case Alloc(i, n) => Asked(ops, k - 1)[i := n]
      case Realloc(i, n) => Asked(ops, k - 1)[i := n]
      case Free(i) => Asked(ops, k - 1) - {i}
  }

  // The payloads in use are those of blocks, which have the sizes asked for.
  ghost predicate AsAsked(v: map<nat, nat>, blocks: map<nat, nat>, sizes: map<nat, nat>, asked: map<nat, nat>) {
    && blocks.Keys == asked.Keys && (forall i :: i in asked ==> i in sizes && sizes[i] == asked[i])
    && forall p :: p in v ==> p in blocks.Values
  }

  // Why the allocator, as it is then, does not do what is asked, of the block that the request names.
  ghost predicate Refused(a: Allocator, op: Op, outcome: Outcome, blocks: map<nat, nat>)
    reads a, a.mem
  {
    && |a.lists| == FREE_LISTS_SIZE
    && match outcome
      case MallocFailed => op.Alloc? && op.index !in blocks && (op.size == 0 || a.OutOfMemory(op.size))
      case ReallocFailed =>
        op.Realloc? && op.index in blocks && (op.size == 0 || FailsFor(a, blocks[op.index], op.size))
      case GrewByFour => op.Realloc? && op.index in blocks && ByFour(a, blocks[op.index], op.size)
      case DataLost => op.Realloc? && op.index in blocks && LowByte(op.index) >= 0x80
      case _ => false
  }

  // What a refusal leaves: the heap as it was, but that mm_realloc for no bytes has freed the block, and that a block
  // whose bytes are taken for lost has its new size.
  ghost predicate LeftBy(a: Allocator, op: Op, outcome: Outcome, blocks: map<nat, nat>, sizes: map<nat, nat>,
                         asked: map<nat, nat>)
    reads a, a.mem
  {
    match outcome
    case ReallocFailed =>
      if op.Realloc? && op.size == 0 then AsBefore(a.mem[..], a.live, blocks - {op.index}, sizes, asked - {op.index})
      else AsBefore(a.mem[..], a.live, blocks, sizes, asked)
    case DataLost =>
      op.Realloc? && exists r: nat :: (r in a.live && a.live[r] == op.size
        && AsBefore(a.mem[..], a.live - {r}, blocks - {op.index}, sizes, asked - {op.index}))
    case _ => AsBefore(a.mem[..], a.live, blocks, sizes, asked)
  }

  // The blocks asked for are there, each with what was written to it, and no others.
  ghost predicate AsBefore(m: seq<Word>, v: map<nat, nat>, blocks: map<nat, nat>, sizes: map<nat, nat>,
                           asked: map<nat, nat>)
  {
    Tracks(m, v, blocks, sizes) && AsAsked(v, blocks, sizes, asked)
  }

  ghost predicate FailsFor(a: Allocator, p: nat, size: nat)
    reads a, a.mem
  {
    |a.lists| == FREE_LISTS_SIZE && 0 < p <= a.mem.Length && a.ReallocFails(p, size)
  }

  ghost predicate ByFour(a: Allocator, p: nat, size: nat)
    reads a, a.mem
  {
    && 0 < p <= a.mem.Length && a.Growth(p - 1, BlockWords(size)) == AtEnd && BlockWords(size) == a.BlkSize(p - 1) + 4
    && !a.CannotExtend(4)
  }

  // add_range: the checks on a payload that is live already but not recorded yet.
  method AddRange(a: Allocator, ranges: seq<Range>, p: nat, size: nat) returns (outcome: Outcome, ranges': seq<Range>)
    requires a.Valid() && p in a.live && a.live[p] == size > 0
    requires Recorded(ranges, a.live - {p})
    ensures outcome == Passed
    ensures Recorded(ranges', a.live) && ranges' == [RangeOf(p, size)] + ranges
  {
    InHeapBytes(a, p);
    hide Recorded, PayloadOf, HeapState, LiveMatches, UsedBlocks;
    var lo, hi := p * WSIZE, p * WSIZE + size - 1;
    ranges' := [Range(lo, hi)] + ranges;
    NowRecorded(ranges, a.live, p, size);
    if lo % ALIGNMENT != 0 {
      outcome := Misaligned;
      return;
    }
    if lo < HEAP_LO * WSIZE || lo > a.brk * WSIZE - 1 || hi < HEAP_LO * WSIZE || hi > a.brk * WSIZE - 1 {
      outcome := OutsideHeap;
      return;
    }
    var k := 0;
    while k < |ranges|
      invariant 0 <= k <= |ranges|
    {
      var r := ranges[k];
      ApartFrom(a, ranges, p, size, k);
      if (lo >= r.lo && lo <= r.hi) || (hi >= r.lo && hi <= r.hi) {
        outcome := Overlapping;
        return;
      }
      k := k + 1;
    }
    outcome := Passed;
  }

  lemma InHeapBytes(a: Allocator, p: nat)
    requires a.Valid() && p in a.live
    ensures p * WSIZE % ALIGNMENT == 0 && HEAP_LO * WSIZE <= p * WSIZE && p * WSIZE + a.live[p] < a.brk * WSIZE
  {
    PayloadsInUse(a);
    hide PayloadOf, HeapState, LiveMatches, UsedBlocks;
    QuadAligned(p);
  }

  lemma QuadAligned(p: nat)
    requires p % 4 == 0
    ensures p * WSIZE % ALIGNMENT == 0
  {
  }

  lemma NowRecorded(ranges: seq<Range>, v: map<nat, nat>, p: nat, size: nat)
    requires Recorded(ranges, v - {p}) && p in v && v[p] == size
    ensures Recorded([RangeOf(p, size)] + ranges, v)
  {
    var ranges' := [RangeOf(p, size)] + ranges;
    forall k | 0 <= k < |ranges'| ensures RecordOf(ranges'[k], v) && (0 < k ==> ranges'[k].lo != p * WSIZE) {
      assert k > 0 ==> ranges'[k] == ranges[k - 1];
    }
    forall q | q in v ensures RangeOf(q, v[q]) in ranges' {
      assert q != p ==> q in v - {p};
      assert ranges'[0] == RangeOf(p, size);
    }
  }

  lemma ApartFrom(a: Allocator, ranges: seq<Range>, p: nat, size: nat, k: nat)
    requires a.Valid() && p in a.live && a.live[p] == size > 0
    requires Recorded(ranges, a.live - {p}) && k < |ranges|
    ensures p * WSIZE + size - 1 < ranges[k].lo || ranges[k].hi < p * WSIZE
  {
    hide HeapState, LiveMatches, UsedBlocks;
    var q := RecordedAt(ranges, a.live - {p}, k);
    PayloadsApart(a, p, q);
  }

  lemma RecordedAt(ranges: seq<Range>, v: map<nat, nat>, k: nat) returns (q: nat)
    requires Recorded(ranges, v) && k < |ranges|
    ensures q in v && ranges[k] == RangeOf(q, v[q])
  {
    assert RecordOf(ranges[k], v);
    q := ranges[k].lo / WSIZE;
  }

  lemma PayloadsApart(a: Allocator, p: nat, q: nat)
    requires a.Valid() && p in a.live && q in a.live && p != q
    ensures p * WSIZE + a.live[p] <= q * WSIZE || q * WSIZE + a.live[q] <= p * WSIZE
  {
    hide PayloadOf, HeapState, LiveMatches, UsedBlocks;
    PayloadsInUse(a);
    assert if p < q then p + |PayloadOf(a.mem[..], p)| < q else q + |PayloadOf(a.mem[..], q)| < p;
  }

  method RemoveRange(ranges: seq<Range>, lo: nat, ghost v: map<nat, nat>) returns (ranges': seq<Range>)
    requires Recorded(ranges, v) && lo % WSIZE == 0
    ensures Recorded(ranges', v - {lo / WSIZE})
    ensures forall r :: r in ranges' <==> r in ranges && r.lo != lo
  {
    var k := 0;
    while k < |ranges|
      invariant 0 <= k <= |ranges|
      invariant forall j :: 0 <= j < k ==> ranges[j].lo != lo
    {
      if ranges[k].lo == lo {
        LessOne(ranges, k, v);
        return ranges[..k] + ranges[k + 1..];
      }
      k := k + 1;
    }
    NoneLess(ranges, lo / WSIZE, v);
    return ranges;
  }

  lemma LessOne(ranges: seq<Range>, k: nat, v: map<nat, nat>)
    requires Recorded(ranges, v) && k < |ranges|
    ensures
      var ranges' := ranges[..k] + ranges[k + 1..];
      && Recorded(ranges', v - {ranges[k].lo / WSIZE})
      && forall r :: r in ranges' <==> r in ranges && r.lo != ranges[k].lo
  {
    var ranges', p := ranges[..k] + ranges[k + 1..], ranges[k].lo / WSIZE;
    OthersStay(ranges, k);
    forall j | 0 <= j < |ranges'| ensures RecordOf(ranges'[j], v - {p}) {
      assert ranges'[j] in ranges';
      LoOf(ranges[k], v);
      LoOf(ranges'[j], v);
    }
    forall q | q in v - {p} ensures RangeOf(q, v[q]) in ranges' {
      LoOf(ranges[k], v);
    }
  }

  lemma OthersStay(ranges: seq<Range>, k: nat)
    requires k < |ranges| && forall i, j :: 0 <= i < j < |ranges| ==> ranges[i].lo != ranges[j].lo
    ensures
      var ranges' := ranges[..k] + ranges[k + 1..];
      && (forall r :: r in ranges' <==> r in ranges && r.lo != ranges[k].lo)
      && forall i, j :: 0 <= i < j < |ranges'| ==> ranges'[i].lo != ranges'[j].lo
  {
    var ranges' := ranges[..k] + ranges[k + 1..];
    forall j | 0 <= j < |ranges'| ensures ranges'[j] == ranges[if j < k then j else j + 1] {
    }
    forall r | r in ranges && r.lo != ranges[k].lo ensures r in ranges' {
      var j :| 0 <= j < |ranges| && ranges[j] == r;
      assert ranges'[if j < k then j else j - 1] == r;
    }
  }

  lemma LoOf(r: Range, v: map<nat, nat>)
    requires RecordOf(r, v)
    ensures r.lo == r.lo / WSIZE * WSIZE
  {
  }

  lemma NoneLess(ranges: seq<Range>, p: nat, v: map<nat, nat>)
    requires Recorded(ranges, v) && forall k :: 0 <= k < |ranges| ==> ranges[k].lo != p * WSIZE
    ensures v - {p} == v
  {
    assert forall r :: r in ranges ==> r.lo != p * WSIZE;
    assert p in v ==> RangeOf(p, v[p]) in ranges;
  }

  // Whether the first n bytes at p pass for the low byte of the index.
  method Check(a: Allocator, p: nat, n: nat, index: nat) returns (ok: bool)
    requires Filled(a.mem[..], p, n, LowByte(index))
    ensures ok <==> n == 0 || LowByte(index) < 0x80
  {
    var j := 0;
    while j < n
      invariant 0 <= j <= n && (j > 0 ==> LowByte(index) < 0x80)
    {
      if SignedChar(ByteAt(a.mem[..], p, j)) != index % 0x100 {
        return false;
      }
      j := j + 1;
    }
    return true;
  }

  // eval_mm_valid on a new heap: no check fails. It passes, and then just the blocks asked for are there, each with
  // what was written to it; or it stops at the request before which this held of the requests so far, and which gets
  // no memory, or would grow the last block by four words, or has an index whose low byte no char holds.
  method EvalMmValid(a: Allocator, ops: seq<Op>)
    returns (outcome: Outcome, blocks: map<nat, nat>, sizes: map<nat, nat>, at: nat)
    requires a.mem.Length == HEAP_MAX && a.brk == HEAP_LO && WellFormed(ops, {})
    modifies a, a.mem
    ensures a.Valid() && at <= |ops|
    ensures outcome == Passed ==> at == |ops| && AsBefore(a.mem[..], a.live, blocks, sizes, Asked(ops, at))
    ensures outcome != Passed ==>
      && at < |ops| && Refused(a, ops[at], outcome, blocks)
      && blocks.Keys == Asked(ops, at).Keys && LeftBy(a, ops[at], outcome, blocks, sizes, Asked(ops, at))
    ensures forall k :: 0 <= k < at && ops[k].Realloc? ==> LowByte(ops[k].index) < 0x80
  {
    var rc := a.MmInit();
    var ranges: seq<Range> := [];
    blocks, sizes := map[], map[];
    assert ops[0..] == ops && blocks.Keys == {};
    var i := 0;
    while i < |ops|
      invariant 0 <= i <= |ops| && a.Valid()
      invariant WellFormed(ops[i..], blocks.Keys) && Recorded(ranges, a.live)
      invariant AsBefore(a.mem[..], a.live, blocks, sizes, Asked(ops, i)) && blocks.Keys == Asked(ops, i).Keys
      invariant forall k :: 0 <= k < i && ops[k].Realloc? ==> LowByte(ops[k].index) < 0x80
    {
      hide HeapState, LiveMatches, UsedBlocks, Recorded, Tracks, AsAsked, Refused;
      assert ops[i..][0] == ops[i] && ops[i..][1..] == ops[i + 1..];
      match ops[i] {
        case Alloc(index, size) =>
          outcome, ranges, blocks, sizes := DoAlloc(a, index, size, ranges, blocks, sizes, Asked(ops, i));
        case Realloc(index, size) =>
          outcome, ranges, blocks, sizes := DoRealloc(a, index, size, ranges, blocks, sizes, Asked(ops, i));
        case Free(index) =>
          ranges, blocks := DoFree(a, index, ranges, blocks, sizes, Asked(ops, i));
          outcome := Passed;
      }
      if outcome != Passed {
        at := i;
        return;
      }
      i := i + 1;
    }
    outcome, at := Passed, i;
  }

  method DoAlloc(a: Allocator, index: nat, size: nat, ranges: seq<Range>, blocks: map<nat, nat>, sizes: map<nat, nat>,
                 ghost asked: map<nat, nat>)
    returns (outcome: Outcome, ranges': seq<Range>, blocks': map<nat, nat>, sizes': map<nat, nat>)
    requires a.Valid() && Recorded(ranges, a.live) && AsBefore(a.mem[..], a.live, blocks, sizes, asked)
    requires index !in blocks && size <= INT_MAX
    modifies a, a.mem
    ensures a.Valid()
    ensures outcome == Passed ==>
      && Recorded(ranges', a.live) && blocks'.Keys == blocks.Keys + {index}
      && AsBefore(a.mem[..], a.live, blocks', sizes', asked[index := size])
    ensures outcome != Passed ==>
      && Refused(a, Alloc(index, size), outcome, blocks) && blocks' == blocks
      && LeftBy(a, Alloc(index, size), outcome, blocks', sizes', asked)
  {
    hide HeapState, LiveMatches, UsedBlocks, Recorded, Tracks, SamePayloads, GetsLess, Fit.FitFor;
    ghost var m, v := a.mem[..], a.live;
    IntSizes(size);
    ranges', blocks', sizes' := ranges, blocks, sizes;
    var p := a.MmMalloc(size);
    if p == 0 {
      outcome := MallocFailed;
      return;
    }
    ghost var m1 := a.mem[..];
    assert a.live - {p} == v;
    outcome, ranges' := AddRange(a, ranges, p, size);
    if outcome != Passed {
      return;
    }
    a.Fill(p, size, LowByte(index));
    PayloadsInUse(a);
    a.FewerPayloads(m1, a.mem[..], a.live.Keys - {p}, v.Keys);
    SameTwice(m, m1, a.mem[..], v.Keys);
    blocks', sizes' := blocks[index := p], sizes[index := size];
    TracksMore(m, a.mem[..], v, blocks, sizes, index, p, size);
    AskedMore(v, blocks, sizes, asked, index, p, size);
  }

  lemma AskedMore(v: map<nat, nat>, blocks: map<nat, nat>, sizes: map<nat, nat>, asked: map<nat, nat>,
                  index: nat, p: nat, size: nat)
    requires AsAsked(v, blocks, sizes, asked) && index !in blocks
    ensures AsAsked(v[p := size], blocks[index := p], sizes[index := size], asked[index := size])
  {
    var blocks' := blocks[index := p];
    forall q | q in v[p := size] ensures q in blocks'.Values {
      if q == p {
        assert blocks'[index] == p;
      } else {
        var i :| i in blocks && blocks[i] == q;
        assert blocks'[i] == q;
      }
    }
  }

  lemma AskedLess(v: map<nat, nat>, blocks: map<nat, nat>, sizes: map<nat, nat>, asked: map<nat, nat>, index: nat)
    requires AsAsked(v, blocks, sizes, asked) && index in blocks
    ensures AsAsked(v - {blocks[index]}, blocks - {index}, sizes, asked - {index})
  {
    var blocks' := blocks - {index};
    forall q | q in v - {blocks[index]} ensures q in blocks'.Values {
      var i :| i in blocks && blocks[i] == q;
      assert i in blocks' && blocks'[i] == q;
    }
  }

  lemma IntSizes(size: nat)
    requires size <= INT_MAX
    ensures !Overflows(size)
    ensures forall w: nat, brk: nat :: w <= Max(BlockWords(size), CHUNKSIZE) ==> !GetsLess(brk, w)
  {
    hide Align, GetsLess;
    AlignRounds(size + 2 * WSIZE);
    FewWords(size);
    forall w: nat, brk: nat | w <= Max(BlockWords(size), CHUNKSIZE) ensures !GetsLess(brk, w) {
      SmallEnough(brk, w);
    }
  }

  lemma FewWords(size: nat)
    requires size <= INT_MAX
    ensures Max(BlockWords(size), CHUNKSIZE) * WSIZE <= INT_MAX + 32
  {
    hide Align;
    AlignRounds(size + 2 * WSIZE);
  }

  // The bytes of these words fit an int or look negative.
  lemma SmallEnough(brk: nat, words: nat)
    requires words * WSIZE <= INT_MAX + 32
    ensures !GetsLess(brk, words)
  {
  }

  lemma SameTwice(m: seq<Word>, m1: seq<Word>, m2: seq<Word>, ps: set<nat>)
    requires SamePayloads(m, m1, ps) && SamePayloads(m1, m2, ps)
    ensures SamePayloads(m, m2, ps)
  {
  }

  lemma StillHolds(m: seq<Word>, m': seq<Word>, p: nat, r: nat, n: nat, b: Byte)
    requires Filled(m, p, n, b) && PayloadKept(m, m', p, r) && n <= WSIZE * |PayloadOf(m, p)| && r <= |m'|
    ensures Filled(m', r, n, b)
  {
    var k := WordsFor(n);
    PayloadWords(m, p);
    if k > 0 { PayloadWords(m', r); }
    forall j | 0 <= j < n ensures r + j / BYTES_IN_WORD < |m'| && ByteAt(m', r, j) == b {
      assert PayloadOf(m, p)[j / BYTES_IN_WORD] == PayloadOf(m', r)[j / BYTES_IN_WORD];
      assert ByteAt(m, p, j) == b;
    }
  }

  lemma PayloadWords(m: seq<Word>, p: nat)
    ensures PayloadOf(m, p) != [] ==> p + |PayloadOf(m, p)| <= |m|
    ensures forall i :: 0 <= i < |PayloadOf(m, p)| ==> PayloadOf(m, p)[i] == m[p + i]
  {
  }

  lemma TracksMore(m: seq<Word>, m': seq<Word>, v: map<nat, nat>, blocks: map<nat, nat>, sizes: map<nat, nat>,
                   index: nat, p: nat, size: nat)
    requires Tracks(m, v, blocks, sizes) && SamePayloads(m, m', v.Keys) && |m'| == |m|
    requires index !in blocks && p !in v && Filled(m', p, size, LowByte(index))
    requires 0 < size <= WSIZE * |PayloadOf(m', p)|
    ensures Tracks(m', v[p := size], blocks[index := p], sizes[index := size])
  {
    var v', blocks', sizes' := v[p := size], blocks[index := p], sizes[index := size];
    hide PayloadOf, Filled;
    forall i | i in blocks' ensures TracksOne(m', v', blocks', sizes', i) {
      if i != index {
        assert TracksOne(m, v, blocks, sizes, i);
        StillThere(m, m', v, blocks, sizes, i);
      }
    }
    forall i | i in blocks ensures blocks[i] != p {
      assert TracksOne(m, v, blocks, sizes, i);
    }
  }

  lemma StillThere(m: seq<Word>, m': seq<Word>, v: map<nat, nat>, blocks: map<nat, nat>, sizes: map<nat, nat>, i: nat)
    requires i in blocks && TracksOne(m, v, blocks, sizes, i) && SamePayloads(m, m', v.Keys) && |m'| == |m|
    ensures Filled(m', blocks[i], sizes[i], LowByte(i)) && |PayloadOf(m', blocks[i])| == |PayloadOf(m, blocks[i])|
  {
    hide PayloadOf, Filled;
    assert PayloadOf(m', blocks[i]) == PayloadOf(m, blocks[i]);
    HoldsWithin(m, blocks[i], sizes[i], LowByte(i));
    StillHolds(m, m', blocks[i], blocks[i], sizes[i], LowByte(i));
  }

  lemma HoldsWithin(m: seq<Word>, p: nat, n: nat, b: Byte)
    requires Filled(m, p, n, b)
    ensures p <= |m|
  {
  }

  lemma TracksLess(m: seq<Word>, v: map<nat, nat>, blocks: map<nat, nat>, sizes: map<nat, nat>, index: nat)
    requires Tracks(m, v, blocks, sizes) && index in blocks
    ensures Tracks(m, v - {blocks[index]}, blocks - {index}, sizes)
    ensures TracksOne(m, v, blocks, sizes, index)
  {
    hide PayloadOf, Filled;
    assert TracksOne(m, v, blocks, sizes, index);
    forall i | i in blocks - {index} ensures TracksOne(m, v - {blocks[index]}, blocks - {index}, sizes, i) {
      assert TracksOne(m, v, blocks, sizes, i);
    }
  }

  lemma TracksSame(m: seq<Word>, m': seq<Word>, v: map<nat, nat>, blocks: map<nat, nat>, sizes: map<nat, nat>)
    requires Tracks(m, v, blocks, sizes) && SamePayloads(m, m', v.Keys) && |m'| == |m|
    ensures Tracks(m', v, blocks, sizes)
  {
    hide PayloadOf, Filled;
    forall i | i in blocks ensures TracksOne(m', v, blocks, sizes, i) {
      assert TracksOne(m, v, blocks, sizes, i);
      StillThere(m, m', v, blocks, sizes, i);
    }
  }

  method DoRealloc(a: Allocator, index: nat, size: nat, ranges: seq<Range>, blocks: map<nat, nat>, sizes: map<nat, nat>,
                   ghost asked: map<nat, nat>)
    returns (outcome: Outcome, ranges': seq<Range>, blocks': map<nat, nat>, sizes': map<nat, nat>)
    requires a.Valid() && Recorded(ranges, a.live) && AsBefore(a.mem[..], a.live, blocks, sizes, asked)
    requires index in blocks && size <= INT_MAX
    modifies a, a.mem
    ensures a.Valid()
    ensures outcome == Passed ==>
      && Recorded(ranges', a.live) && blocks'.Keys == blocks.Keys && LowByte(index) < 0x80
      && AsBefore(a.mem[..], a.live, blocks', sizes', asked[index := size])
    ensures outcome != Passed ==>
      && Refused(a, Realloc(index, size), outcome, blocks) && blocks' == blocks
      && LeftBy(a, Realloc(index, size), outcome, blocks', sizes', asked)
  {
    hide HeapState, LiveMatches, UsedBlocks, Recorded, Tracks, AsAsked, SamePayloads, PayloadOf, PayloadKept, Filled,
         Refused;
    ghost var m, v := a.mem[..], a.live;
    ranges', blocks', sizes' := ranges, blocks, sizes;
    TracksLess(m, v, blocks, sizes, index);
    var oldp := blocks[index];
    a.ValidState();
    var newp;
    outcome, newp := TryRealloc(a, index, oldp, size, blocks);
    if outcome != Passed {
      LeftAlone(a, m, v, Realloc(index, size), outcome, blocks, sizes, asked);
      return;
    }
    ranges' := RemoveRange(ranges, oldp * WSIZE, v);
    assert a.live - {newp} == v - {oldp};
    outcome, ranges' := AddRange(a, ranges', newp, size);
    if outcome != Passed {
      return;
    }
    var ok := CheckKept(a, newp, size, index, sizes[index], m, v, oldp);
    if !ok {
      outcome := DataLost;
      HighByte(a, index, size, blocks);
      OthersLeft(a, m, v, Realloc(index, size), newp, blocks, sizes, asked);
      return;
    }
    blocks', sizes' := Refill(a, index, newp, size, blocks, sizes, oldp, m, v);
    Reasked(v, blocks, sizes, asked, index, newp, size);
  }

  lemma HighByte(a: Allocator, index: nat, size: nat, blocks: map<nat, nat>)
    requires a.Valid() && LowByte(index) >= 0x80 && index in blocks
    ensures Refused(a, Realloc(index, size), DataLost, blocks)
  {
    a.ValidState();
  }

  lemma LeftAlone(a: Allocator, m: seq<Word>, v: map<nat, nat>, op: Op, outcome: Outcome,
                  blocks: map<nat, nat>, sizes: map<nat, nat>, asked: map<nat, nat>)
    requires AsBefore(m, v, blocks, sizes, asked) && op.Realloc? && op.index in blocks && |m| == a.mem.Length
    requires outcome in {ReallocFailed, GrewByFour}
    requires
      if outcome == ReallocFailed && op.size == 0
      then a.live == v - {blocks[op.index]} && SamePayloads(m, a.mem[..], v.Keys - {blocks[op.index]})
      else a.mem[..] == m && a.live == v
    ensures LeftBy(a, op, outcome, blocks, sizes, asked)
  {
    hide Tracks, AsAsked, SamePayloads;
    if outcome == ReallocFailed && op.size == 0 {
      OthersStill(m, a.mem[..], v, op.index, blocks, sizes, asked);
    }
  }

  lemma OthersStill(m: seq<Word>, m': seq<Word>, v: map<nat, nat>, index: nat,
                    blocks: map<nat, nat>, sizes: map<nat, nat>, asked: map<nat, nat>)
    requires AsBefore(m, v, blocks, sizes, asked) && index in blocks && |m'| == |m|
    requires SamePayloads(m, m', v.Keys - {blocks[index]})
    ensures AsBefore(m', v - {blocks[index]}, blocks - {index}, sizes, asked - {index})
  {
    hide Tracks, AsAsked, SamePayloads;
    assert (v - {blocks[index]}).Keys == v.Keys - {blocks[index]};
    TracksLess(m, v, blocks, sizes, index);
    TracksSame(m, m', v - {blocks[index]}, blocks - {index}, sizes);
    AskedLess(v, blocks, sizes, asked, index);
  }

  lemma OthersLeft(a: Allocator, m: seq<Word>, v: map<nat, nat>, op: Op, newp: nat,
                   blocks: map<nat, nat>, sizes: map<nat, nat>, asked: map<nat, nat>)
    requires AsBefore(m, v, blocks, sizes, asked) && op.Realloc? && op.index in blocks && |m| == a.mem.Length
    requires a.Moved(m, v, blocks[op.index], op.size, newp)
    ensures LeftBy(a, op, DataLost, blocks, sizes, asked)
  {
    hide Tracks, AsAsked, SamePayloads, PayloadKept;
    OthersStill(m, a.mem[..], v, op.index, blocks, sizes, asked);
    assert a.live - {newp} == v - {blocks[op.index]};
  }

  // mm_realloc in a REALLOC request, unless it would be by four words.
  method TryRealloc(a: Allocator, ghost index: nat, oldp: nat, size: nat, ghost blocks: map<nat, nat>)
    returns (outcome: Outcome, newp: nat)
    requires a.Valid() && index in blocks && blocks[index] == oldp && oldp in a.live && size <= INT_MAX
    modifies a, a.mem
    ensures a.Valid()
    ensures outcome == Passed ==> 0 < size && a.Moved(old(a.mem[..]), old(a.live), oldp, size, newp)
    ensures outcome != Passed ==>
      && outcome in {ReallocFailed, GrewByFour} && Refused(a, Realloc(index, size), outcome, blocks)
      && if outcome == ReallocFailed && size == 0
         then a.live == old(a.live) - {oldp} && SamePayloads(old(a.mem[..]), a.mem[..], old(a.live.Keys) - {oldp})
         else a.mem[..] == old(a.mem[..]) && a.live == old(a.live)
  {
    hide HeapState, LiveMatches, UsedBlocks, SamePayloads, GetsLess, Fit.FitFor, PayloadOf, PayloadKept, FailsIn;
    IntSizes(size);
    a.LiveBlock(oldp);
    a.ValidState();
    if !a.Manageable(oldp, size) {
      OnlyByFour(a, oldp, size);
      return GrewByFour, 0;
    }
    FailsByParts(a, oldp, size);
    newp := a.MmRealloc(oldp, size);
    a.ValidState();
    outcome := Passed;
    if newp == 0 {
      outcome := ReallocFailed;
      FailsByParts(a, oldp, size);
    }
  }

  // The comparison of the bytes that a REALLOC request leaves.
  method CheckKept(a: Allocator, newp: nat, size: nat, index: nat, oldsize: nat,
                   ghost m: seq<Word>, ghost v: map<nat, nat>, ghost oldp: nat) returns (ok: bool)
    requires a.Valid() && 0 < size && a.Moved(m, v, oldp, size, newp)
    requires 0 < oldsize <= WSIZE * |PayloadOf(m, oldp)| && Filled(m, oldp, oldsize, LowByte(index))
    ensures ok <==> LowByte(index) < 0x80
  {
    hide HeapState, LiveMatches, UsedBlocks, SamePayloads, PayloadOf, PayloadKept, Filled;
    a.LiveBlock(newp);
    var n := oldsize;
    if size < n {
      n := size;
    }
    KeptPattern(m, a.mem[..], oldp, newp, oldsize, n, LowByte(index));
    ok := Check(a, newp, n, index);
  }

  lemma Reasked(v: map<nat, nat>, blocks: map<nat, nat>, sizes: map<nat, nat>, asked: map<nat, nat>,
                index: nat, p: nat, size: nat)
    requires AsAsked(v, blocks, sizes, asked) && index in blocks
    ensures AsAsked((v - {blocks[index]})[p := size], blocks[index := p], sizes[index := size], asked[index := size])
  {
    hide AsAsked;
    AskedLess(v, blocks, sizes, asked, index);
    AskedMore(v - {blocks[index]}, blocks - {index}, sizes, asked - {index}, index, p, size);
    assert (blocks - {index})[index := p] == blocks[index := p];
    assert (asked - {index})[index := size] == asked[index := size];
  }

  // What ReallocFails says of a heap, by its parts.
  ghost predicate FailsIn(m: seq<Word>, brk: nat, lists: seq<seq<nat>>, p: nat, size: nat)
    requires |lists| == FREE_LISTS_SIZE && 0 < p <= |m|
  {
    var words := BlockWords(size);
    match GrowthIn(m, p - 1, words)
    case AtEnd => brk + words - Size(m, p - 1) > HEAP_MAX || (words - Size(m, p - 1)) * WSIZE > INT_MAX
    case Elsewhere =>
      && Fit.FitFor(m, lists, words) == 0
      && (brk + Max(words, CHUNKSIZE) > HEAP_MAX || Max(words, CHUNKSIZE) * WSIZE > INT_MAX)
    case _ => false
  }

  lemma FailsByParts(a: Allocator, p: nat, size: nat)
    requires |a.lists| == FREE_LISTS_SIZE && 0 < p <= a.mem.Length
    ensures a.ReallocFails(p, size) <==> FailsIn(a.mem[..], a.brk, a.lists, p, size)
  {
    hide BlockWords, Fit.FitFor;
  }

  lemma KeptPattern(m: seq<Word>, m': seq<Word>, p: nat, r: nat, size: nat, less: nat, b: Byte)
    requires Filled(m, p, size, b) && PayloadKept(m, m', p, r) && r <= |m'|
    requires less <= size <= WSIZE * |PayloadOf(m, p)|
    ensures Filled(m', r, less, b)
  {
    StillHolds(m, m', p, r, size, b);
  }

  lemma OnlyByFour(a: Allocator, p: nat, size: nat)
    requires a.Valid() && p in a.live && p <= a.mem.Length && size <= INT_MAX && !a.Manageable(p, size)
    ensures ByFour(a, p, size)
  {
    IntSizes(size);
    a.LiveBlock(p);
    if a.Growth(p - 1, BlockWords(size)) == AtEnd {
      GrowthServed(a, p, size);
    }
  }

  // The last part of a REALLOC request.
  method Refill(a: Allocator, index: nat, newp: nat, size: nat, blocks: map<nat, nat>, sizes: map<nat, nat>,
                ghost oldp: nat, ghost m: seq<Word>, ghost v: map<nat, nat>)
    returns (blocks': map<nat, nat>, sizes': map<nat, nat>)
    requires a.Valid() && index in blocks && blocks[index] == oldp && Tracks(m, v, blocks, sizes)
    requires |m| == a.mem.Length && 0 < size && a.Moved(m, v, oldp, size, newp)
    modifies a.mem
    ensures a.Valid() && Tracks(a.mem[..], a.live, blocks', sizes') && blocks'.Keys == blocks.Keys
    ensures blocks' == blocks[index := newp] && sizes' == sizes[index := size] && a.live == (v - {oldp})[newp := size]
  {
    hide HeapState, LiveMatches, UsedBlocks, Tracks, SamePayloads, PayloadOf, PayloadKept, Filled;
    ghost var m1 := a.mem[..];
    a.Fill(newp, size, LowByte(index));
    PayloadsInUse(a);
    a.FewerPayloads(m1, a.mem[..], a.live.Keys - {newp}, v.Keys - {oldp});
    SameTwice(m, m1, a.mem[..], v.Keys - {oldp});
    TracksLess(m, v, blocks, sizes, index);
    TracksMore(m, a.mem[..], v - {oldp}, blocks - {index}, sizes, index, newp, size);
    assert (blocks - {index})[index := newp] == blocks[index := newp];
    assert (v - {oldp}).Keys == v.Keys - {oldp};
    blocks', sizes' := blocks[index := newp], sizes[index := size];
  }

  method DoFree(a: Allocator, index: nat, ranges: seq<Range>, blocks: map<nat, nat>, sizes: map<nat, nat>,
                ghost asked: map<nat, nat>)
    returns (ranges': seq<Range>, blocks': map<nat, nat>)
    requires a.Valid() && Recorded(ranges, a.live) && index in blocks
    requires AsBefore(a.mem[..], a.live, blocks, sizes, asked)
    modifies a, a.mem
    ensures a.Valid() && Recorded(ranges', a.live) && blocks'.Keys == blocks.Keys - {index}
    ensures AsBefore(a.mem[..], a.live, blocks', sizes, asked - {index})
  {
    hide HeapState, LiveMatches, UsedBlocks, Recorded, Tracks, SamePayloads, PayloadOf, Filled;
    ghost var m, v := a.mem[..], a.live;
    TracksLess(m, v, blocks, sizes, index);
    var p := blocks[index];
    ranges' := RemoveRange(ranges, p * WSIZE, v);
    a.MmFree(p);
    assert (v - {p}).Keys == v.Keys - {p};
    blocks' := blocks - {index};
    AskedLess(v, blocks, sizes, asked, index);
    TracksSame(m, a.mem[..], v - {p}, blocks', sizes);
  }
}
