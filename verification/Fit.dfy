/** The search of malloclab/mm.c for a free block, list by list and at most five elements of each. */
module Fit {
  import opened Memory
  import opened List
  import opened Layout
  import opened FreeLists
  import opened Blocks
  import opened Heap

  const LIMIT := 5

  // The elements of a list that are looked at from its front, and from its back.
  ghost function Front(l: seq<nat>): seq<nat> { if |l| <= LIMIT then l else l[..LIMIT] }

  ghost function Back(l: seq<nat>): seq<nat> {
    seq(if |l| <= LIMIT then |l| else LIMIT, k requires 0 <= k < |l| => l[|l| - 1 - k])
  }

  ghost predicate Fits(m: seq<Word>, e: nat, asize: nat) { 2 < e && e - 2 < |m| && Size(m, e - 2) >= asize }

  // The block of the first element of w that fits, 0 if there is none.
  ghost function FirstFit(m: seq<Word>, w: seq<nat>, asize: nat): nat {
    if w == [] then 0
    else if Fits(m, w[0], asize) then w[0] - 2
    else FirstFit(m, w[1..], asize)
  }

  // The first fit in the lists from i on.
  ghost function SearchFrom(m: seq<Word>, lists: seq<seq<nat>>, i: nat, asize: nat): nat
    decreases |lists| - i
  {
    if i >= |lists| then 0
    else
      var b := FirstFit(m, Front(lists[i]), asize);
      if b != 0 then b else SearchFrom(m, lists, i + 1, asize)
  }

  // The elements of the request's own list that are looked at.
  ghost function OwnWindow(lists: seq<seq<nat>>, asize: nat): seq<nat>
    requires 0 <= FitIndex(asize) < |lists|
  {
    var l := lists[FitIndex(asize)];
    if asize < RANGES[FitIndex(asize)] / 2 then Front(l) else Back(l)
  }

  // The block that the search finds for asize words, 0 if it finds none.
  ghost function FitFor(m: seq<Word>, lists: seq<seq<nat>>, asize: nat): nat
    requires FitIndex(asize) < |lists|
  {
    if FitIndex(asize) < 0 then 0
    else
      var b := FirstFit(m, OwnWindow(lists, asize), asize);
      if b != 0 then b else SearchFrom(m, lists, FitIndex(asize) + 1, asize)
  }

  lemma {:induction false} FirstFitElement(m: seq<Word>, w: seq<nat>, asize: nat)
    ensures FirstFit(m, w, asize) != 0 ==>
      exists k :: 0 <= k < |w| && Fits(m, w[k], asize) && FirstFit(m, w, asize) == w[k] - 2
                  && forall h :: 0 <= h < k ==> !Fits(m, w[h], asize)
    ensures FirstFit(m, w, asize) == 0 ==> forall k :: 0 <= k < |w| ==> !Fits(m, w[k], asize)
  {
    if w != [] && !Fits(m, w[0], asize) {
      FirstFitElement(m, w[1..], asize);
      assert forall h :: 0 < h < |w| ==> w[h] == w[1..][h - 1];
      if FirstFit(m, w[1..], asize) != 0 {
        var k :| 0 <= k < |w[1..]| && Fits(m, w[1..][k], asize) && FirstFit(m, w[1..], asize) == w[1..][k] - 2
          && forall h :: 0 <= h < k ==> !Fits(m, w[1..][h], asize);
        forall h | 0 <= h < k + 1 ensures !Fits(m, w[h], asize) {
          assert h > 0 ==> !Fits(m, w[1..][h - 1], asize);
        }
        assert w[k + 1] == w[1..][k];
      }
    }
  }

  lemma FitsHere(m: seq<Word>, w: seq<nat>, asize: nat) returns (k: nat)
    requires FirstFit(m, w, asize) != 0
    ensures k < |w| && Fits(m, w[k], asize) && FirstFit(m, w, asize) == w[k] - 2
  {
    FirstFitElement(m, w, asize);
    k :| 0 <= k < |w| && Fits(m, w[k], asize) && FirstFit(m, w, asize) == w[k] - 2;
  }

  lemma {:induction false} SearchFromElement(m: seq<Word>, lists: seq<seq<nat>>, i: nat, asize: nat)
    ensures SearchFrom(m, lists, i, asize) != 0 ==>
      exists j, k :: i <= j < |lists| && 0 <= k < |lists[j]| && Fits(m, lists[j][k], asize)
                     && SearchFrom(m, lists, i, asize) == lists[j][k] - 2
    ensures SearchFrom(m, lists, i, asize) == 0 ==>
      forall j :: i <= j < |lists| ==> FirstFit(m, Front(lists[j]), asize) == 0
    decreases |lists| - i
  {
    if i < |lists| {
      FirstFitElement(m, Front(lists[i]), asize);
      if FirstFit(m, Front(lists[i]), asize) == 0 {
        SearchFromElement(m, lists, i + 1, asize);
      }
    }
  }

  // ----- the search, in numbers -----

  // The size of the block of an element.
  ghost function SizeAt(m: seq<Word>, e: nat): nat { if 2 < e && e - 2 < |m| then Size(m, e - 2) else 0 }

  // None of the first five elements of l, or of the last five, is of a block of so many words.
  ghost predicate NoneOfFive(m: seq<Word>, l: seq<nat>, front: bool, asize: nat) {
    forall k :: 0 <= k < |l| && (if front then k < 5 else k >= |l| - 5) ==> SizeAt(m, l[k]) < asize
  }

  // The block b is the first of them from that end that has so many words.
  ghost predicate FirstOfFive(m: seq<Word>, l: seq<nat>, front: bool, asize: nat, b: nat) {
    exists k :: 0 <= k < |l| && (if front then k < 5 else k >= |l| - 5) && l[k] == b + 2 && SizeAt(m, l[k]) >= asize
      && forall h :: 0 <= h < |l| && (if front then h < k else h > k) ==> SizeAt(m, l[h]) < asize
  }

  // The half of what the range of a list reaches to.
  const MIDDLES: seq<nat> := [4, 12, 16, 20, 60, 308, 1680, 2896, 20852, 76852]

  // b is what is to be found for asize words, of size class i: in the list of that class from the front, if asize is
  // below the middle, and else from the back; and then in the higher lists from the front.
  ghost predicate Chosen(m: seq<Word>, lists: seq<seq<nat>>, i: nat, asize: nat, b: nat)
    requires i < |MIDDLES| == |lists|
  {
    var front := asize < MIDDLES[i];
    if b == 0 then
      NoneOfFive(m, lists[i], front, asize) && forall j :: i < j < 10 ==> NoneOfFive(m, lists[j], true, asize)
    else
      || FirstOfFive(m, lists[i], front, asize, b)
      || (NoneOfFive(m, lists[i], front, asize) && FoundFrom(m, lists, i + 1, asize, b))
  }

  // b is of the first of the lists from i on that has one among its first five.
  ghost predicate FoundFrom(m: seq<Word>, lists: seq<seq<nat>>, i: nat, asize: nat, b: nat) {
    exists j :: (i <= j < |lists| && FirstOfFive(m, lists[j], true, asize, b)
                 && forall h :: i <= h < j ==> NoneOfFive(m, lists[h], true, asize))
  }

  lemma FrontInNumbers(m: seq<Word>, l: seq<nat>, asize: nat)
    requires asize > 0
    ensures
      var b := FirstFit(m, Front(l), asize);
      if b == 0 then NoneOfFive(m, l, true, asize) else FirstOfFive(m, l, true, asize, b)
  {
    var w := Front(l);
    FirstFitElement(m, w, asize);
    assert forall k :: 0 <= k < |w| ==> w[k] == l[k];
    forall k | 0 <= k < |l| ensures Fits(m, l[k], asize) <==> SizeAt(m, l[k]) >= asize {
    }
  }

  lemma BackInNumbers(m: seq<Word>, l: seq<nat>, asize: nat)
    requires asize > 0
    ensures
      var b := FirstFit(m, Back(l), asize);
      if b == 0 then NoneOfFive(m, l, false, asize) else FirstOfFive(m, l, false, asize, b)
  {
    var w := Back(l);
    FirstFitElement(m, w, asize);
    forall k | 0 <= k < |l| ensures Fits(m, l[k], asize) <==> SizeAt(m, l[k]) >= asize {
    }
    forall k | |l| - 5 <= k < |l| && 0 <= k ensures w[|l| - 1 - k] == l[k] {
    }
  }

  lemma {:induction false} SearchInNumbers(m: seq<Word>, lists: seq<seq<nat>>, i: nat, asize: nat)
    requires asize > 0
    ensures
      var b := SearchFrom(m, lists, i, asize);
      if b == 0 then forall j :: i <= j < |lists| ==> NoneOfFive(m, lists[j], true, asize)
      else FoundFrom(m, lists, i, asize, b)
    decreases |lists| - i
  {
    hide NoneOfFive, FirstOfFive, FirstFit, Front;
    if i < |lists| {
      FrontInNumbers(m, lists[i], asize);
      SearchInNumbers(m, lists, i + 1, asize);
    }
  }

  // What the search finds is what is to be found.
  lemma FitIsChosen(m: seq<Word>, lists: seq<seq<nat>>, i: nat, asize: nat)
    requires |lists| == FREE_LISTS_SIZE && OfClass(i, asize)
    ensures i < FREE_LISTS_SIZE && FitIndex(asize) == i && Chosen(m, lists, i, asize, FitFor(m, lists, asize))
  {
    hide NoneOfFive, FirstOfFive, FirstFit, SearchFrom, Front, Back;
    ClassIsIndex(i, asize);
    FrontInNumbers(m, lists[i], asize);
    BackInNumbers(m, lists[i], asize);
    SearchInNumbers(m, lists, i + 1, asize);
  }

  // There is nothing else to be found.
  lemma ChosenOnce(m: seq<Word>, lists: seq<seq<nat>>, i: nat, asize: nat, b: nat, c: nat)
    requires i < |MIDDLES| == |lists| && Chosen(m, lists, i, asize, b) && Chosen(m, lists, i, asize, c)
    ensures b == c
  {
    hide NoneOfFive, FirstOfFive;
    var l, front := lists[i], asize < MIDDLES[i];
    if FirstOfFive(m, l, front, asize, b) {
      FirstOnce(m, l, front, asize, b, c);
    }
    if FirstOfFive(m, l, front, asize, c) {
      FirstOnce(m, l, front, asize, c, b);
    }
    if b != 0 && FoundFrom(m, lists, i + 1, asize, b) {
      NotNone(m, lists, i + 1, asize, b);
    }
    if c != 0 && FoundFrom(m, lists, i + 1, asize, c) {
      NotNone(m, lists, i + 1, asize, c);
    }
    if b != 0 && c != 0 && !FirstOfFive(m, lists[i], front, asize, b) {
      FoundOnce(m, lists, i + 1, asize, b, c);
    }
  }

  lemma NotNone(m: seq<Word>, lists: seq<seq<nat>>, i: nat, asize: nat, b: nat)
    requires FoundFrom(m, lists, i, asize, b)
    ensures exists j :: i <= j < |lists| && !NoneOfFive(m, lists[j], true, asize)
  {
    hide NoneOfFive, FirstOfFive;
    var j :| i <= j < |lists| && FirstOfFive(m, lists[j], true, asize, b);
    FirstOnce(m, lists[j], true, asize, b, b);
  }

  lemma FoundOnce(m: seq<Word>, lists: seq<seq<nat>>, i: nat, asize: nat, b: nat, c: nat)
    requires FoundFrom(m, lists, i, asize, b) && FoundFrom(m, lists, i, asize, c)
    ensures b == c
  {
    hide NoneOfFive, FirstOfFive;
    var j :| i <= j < |lists| && FirstOfFive(m, lists[j], true, asize, b)
      && forall h :: i <= h < j ==> NoneOfFive(m, lists[h], true, asize);
    var k :| i <= k < |lists| && FirstOfFive(m, lists[k], true, asize, c)
      && forall h :: i <= h < k ==> NoneOfFive(m, lists[h], true, asize);
    FirstOnce(m, lists[j], true, asize, b, c);
    FirstOnce(m, lists[k], true, asize, c, c);
  }

  lemma FirstOnce(m: seq<Word>, l: seq<nat>, front: bool, asize: nat, b: nat, c: nat)
    requires FirstOfFive(m, l, front, asize, b)
    ensures !NoneOfFive(m, l, front, asize) && (FirstOfFive(m, l, front, asize, c) ==> b == c)
  {
  }

  lemma ElementSize(m: seq<Word>, epi: nat, s: set<nat>, lists: seq<seq<nat>>, x: set<nat>, i: nat, k: nat)
    requires HeapState(m, epi, s, lists, x) && i < |lists| && k < |lists[i]|
    ensures Classed(m, s, lists, i, k) && lists[i][k] > 2 && lists[i][k] - 2 !in x
    ensures Size(m, lists[i][k] - 2) >= MIN_BLOCK_SIZE_WORDS
  {
    assert Classed(m, s, lists, i, k);
    BlockExtent(m, epi, s, MIN_BLOCK_SIZE_WORDS, lists[i][k] - 2);
  }

  lemma OwnWindowElement(lists: seq<seq<nat>>, asize: nat, k: nat) returns (l: nat)
    requires 0 <= FitIndex(asize) < |lists| && k < |OwnWindow(lists, asize)|
    ensures l < |lists[FitIndex(asize)]| && lists[FitIndex(asize)][l] == OwnWindow(lists, asize)[k]
  {
    l := if asize < RANGES[FitIndex(asize)] / 2 then k else |lists[FitIndex(asize)]| - 1 - k;
  }

  // What the search finds is a free block of the size asked for.
  lemma FitIsFree(m: seq<Word>, epi: nat, s: set<nat>, lists: seq<seq<nat>>, x: set<nat>, asize: nat)
    requires HeapState(m, epi, s, lists, x) && |lists| == FREE_LISTS_SIZE && FitFor(m, lists, asize) != 0
    ensures
      var b := FitFor(m, lists, asize);
      b in s && b !in x && b < |m| && !Used(m, b) && Size(m, b) >= asize >= MIN_BLOCK_SIZE_WORDS
  {
    hide HeapState, FirstFit, SearchFrom, OwnWindow;
    var i := FitIndex(asize);
    var w := OwnWindow(lists, asize);
    if FirstFit(m, w, asize) != 0 {
      var k := FitsHere(m, w, asize);
      var l := OwnWindowElement(lists, asize, k);
      ElementSize(m, epi, s, lists, x, i, l);
    } else {
      var b := SearchFrom(m, lists, i + 1, asize);
      SearchFromElement(m, lists, i + 1, asize);
      var j, k :| i + 1 <= j < |lists| && 0 <= k < |lists[j]| && Fits(m, lists[j][k], asize) && b == lists[j][k] - 2;
      ElementSize(m, epi, s, lists, x, j, k);
    }
  }

  lemma FrontStarts(l: seq<nat>)
    ensures l != [] ==> Front(l) != [] && Front(l)[0] == l[0] && Back(l) != [] && Back(l)[0] == l[|l| - 1]
  {
  }

  // Blocks of every class above the request's are large enough, but for those of class 5.
  lemma HigherClassFits(asize: nat, size: nat)
    requires asize >= MIN_BLOCK_SIZE_WORDS && size >= MIN_BLOCK_SIZE_WORDS
    requires FitIndex(size) > FitIndex(asize) && FitIndex(size) != SMALL_CLASS_SIZE
    ensures size > asize
  {
  }

  lemma NoFitHigher(m: seq<Word>, epi: nat, s: set<nat>, lists: seq<seq<nat>>, x: set<nat>, asize: nat, j: nat)
    requires HeapState(m, epi, s, lists, x) && asize >= MIN_BLOCK_SIZE_WORDS
    requires FitIndex(asize) < j < |lists| && FirstFit(m, Front(lists[j]), asize) == 0
    ensures j != SMALL_CLASS_SIZE ==> lists[j] == []
    ensures forall k :: 0 <= k < |lists[j]| && k < LIMIT ==>
      Classed(m, s, lists, j, k) && Size(m, lists[j][k] - 2) < asize
  {
    if j != SMALL_CLASS_SIZE && lists[j] != [] {
      ElementSize(m, epi, s, lists, x, j, 0);
      HigherClassFits(asize, Size(m, lists[j][0] - 2));
      FrontStarts(lists[j]);
    }
    FirstFitElement(m, Front(lists[j]), asize);
    forall k | 0 <= k < |lists[j]| && k < LIMIT
      ensures Classed(m, s, lists, j, k) && Size(m, lists[j][k] - 2) < asize
    {
      ElementSize(m, epi, s, lists, x, j, k);
      assert Front(lists[j])[k] == lists[j][k];
    }
  }

  lemma NoFitOwn(m: seq<Word>, epi: nat, s: set<nat>, lists: seq<seq<nat>>, x: set<nat>, asize: nat)
    requires HeapState(m, epi, s, lists, x) && 0 <= FitIndex(asize) < SMALL_CLASS_SIZE && |lists| == FREE_LISTS_SIZE
    requires FirstFit(m, OwnWindow(lists, asize), asize) == 0
    ensures lists[FitIndex(asize)] == []
  {
    var i := FitIndex(asize);
    FrontStarts(lists[i]);
    FirstFitElement(m, OwnWindow(lists, asize), asize);
    if lists[i] != [] {
      ElementSize(m, epi, s, lists, x, i, if asize < RANGES[i] / 2 then 0 else |lists[i]| - 1);
    }
  }

  // The search fails only if each higher list but list 5 is empty, and so is the request's own if it is exact;
  // and then none of the first five blocks of list 5, when that is higher, is large enough.
  lemma NoFitMeansEmpty(m: seq<Word>, epi: nat, s: set<nat>, lists: seq<seq<nat>>, x: set<nat>, asize: nat)
    requires HeapState(m, epi, s, lists, x) && |lists| == FREE_LISTS_SIZE
    requires asize >= MIN_BLOCK_SIZE_WORDS && FitFor(m, lists, asize) == 0
    ensures forall j :: FitIndex(asize) < j < FREE_LISTS_SIZE && j != SMALL_CLASS_SIZE ==> lists[j] == []
    ensures FitIndex(asize) < SMALL_CLASS_SIZE ==> lists[FitIndex(asize)] == []
    ensures FitIndex(asize) < SMALL_CLASS_SIZE ==> forall k :: 0 <= k < |lists[SMALL_CLASS_SIZE]| && k < LIMIT ==>
      Classed(m, s, lists, SMALL_CLASS_SIZE, k) && Size(m, lists[SMALL_CLASS_SIZE][k] - 2) < asize
  {
    var i := FitIndex(asize);
    hide HeapState;
    SearchFromElement(m, lists, i + 1, asize);
    forall j | i < j < FREE_LISTS_SIZE && j != SMALL_CLASS_SIZE ensures lists[j] == [] {
      NoFitHigher(m, epi, s, lists, x, asize, j);
    }
    if i < SMALL_CLASS_SIZE {
      NoFitOwn(m, epi, s, lists, x, asize);
      NoFitHigher(m, epi, s, lists, x, asize, SMALL_CLASS_SIZE);
    }
  }
}
