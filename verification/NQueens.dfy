/** The n-queens counter of threadlab/tests/nqueens.c. */
module NQueens {
  type Pos = (int, int)

  // The bit of square (x, y).
  function Index(x: nat, y: nat, N: nat): nat { x * N + y }

  lemma IndexFits(x: nat, y: nat, N: nat)
    requires x < N && y < N
    ensures Index(x, y, N) < N * N
  {
    Times(x + 1, N, N);
    assert x * N + N == (x + 1) * N;
  }

  lemma IndexGrows(x: nat, y: nat, u: nat, v: nat, N: nat)
    requires x < u && y < N
    ensures Index(x, y, N) < Index(u, v, N)
  {
    assert (x + 1) * N <= u * N by {
      Times(x + 1, u, N);
    }
    assert (x + 1) * N == x * N + N;
  }

  lemma Times(a: nat, b: nat, n: nat)
    requires a <= b
    ensures a * n <= b * n
  {
  }

  lemma IndexInjective(x: nat, y: nat, u: nat, v: nat, N: nat)
    requires y < N && v < N && Index(x, y, N) == Index(u, v, N)
    ensures x == u && y == v
  {
    if x < u {
      IndexGrows(x, y, u, v, N);
    } else if u < x {
      IndexGrows(u, v, x, y, N);
    }
  }

  // The squares of an N x N board whose bits are set.
  ghost function Queens(bits: seq<bool>, N: nat): set<Pos> {
    set x, y | 0 <= x < N && 0 <= y < N && QueenAt(bits, N, x, y) :: (x, y)
  }

  predicate QueenAt(bits: seq<bool>, N: nat, x: nat, y: nat) { Index(x, y, N) < |bits| && bits[Index(x, y, N)] }

  predicate Attacks(p: Pos, q: Pos) {
    p != q && (p.0 == q.0 || p.1 == q.1 || p.0 - p.1 == q.0 - q.1 || p.0 + p.1 == q.0 + q.1)
  }

  ghost predicate Peaceful(s: set<Pos>) { forall p, q :: p in s && q in s ==> !Attacks(p, q) }

  ghost predicate OnBoard(s: set<Pos>, N: nat) { forall p :: p in s ==> 0 <= p.0 < N && 0 <= p.1 < N }

  // is_queen
  predicate IsQueen(bits: seq<bool>, x: int, y: int, N: nat) {
    0 <= x < N && 0 <= y < N && QueenAt(bits, N, x, y)
  }

  lemma IsQueenInSet(bits: seq<bool>, x: int, y: int, N: nat)
    ensures IsQueen(bits, x, y, N) <==> (x, y) in Queens(bits, N)
  {
  }

  // set_queen
  method SetQueen(bits: array<bool>, x: nat, y: nat, N: nat)
    requires x < N && y < N && N * N <= bits.Length
    modifies bits
    ensures Queens(bits[..], N) == Queens(old(bits[..]), N) + {(x, y)}
    ensures Index(x, y, N) < bits.Length && bits[..] == old(bits[..])[Index(x, y, N) := true]
  {
    IndexFits(x, y, N);
    bits[x * N + y] := true;
    OneBit(old(bits[..]), x, y, N, true);
  }

  // unset_queen
  method UnsetQueen(bits: array<bool>, x: nat, y: nat, N: nat)
    requires x < N && y < N && N * N <= bits.Length
    modifies bits
    ensures Queens(bits[..], N) == Queens(old(bits[..]), N) - {(x, y)}
    ensures Index(x, y, N) < bits.Length && bits[..] == old(bits[..])[Index(x, y, N) := false]
  {
    IndexFits(x, y, N);
    bits[x * N + y] := false;
    OneBit(old(bits[..]), x, y, N, false);
  }

  lemma OneBit(bits: seq<bool>, x: nat, y: nat, N: nat, b: bool)
    requires x < N && y < N && N * N <= |bits|
    ensures Index(x, y, N) < |bits|
    ensures Queens(bits[Index(x, y, N) := b], N) == if b then Queens(bits, N) + {(x, y)} else Queens(bits, N) - {(x, y)}
  {
    IndexFits(x, y, N);
    var bits' := bits[Index(x, y, N) := b];
    forall u: nat, v: nat | u < N && v < N && (u, v) != (x, y)
      ensures QueenAt(bits', N, u, v) == QueenAt(bits, N, u, v)
    {
      if Index(u, v, N) == Index(x, y, N) {
        IndexInjective(u, v, x, y, N);
      }
    }
    hide Index;
    forall p: Pos
      ensures p in Queens(bits', N) <==>
        if b then p in Queens(bits, N) || p == (x, y) else p in Queens(bits, N) && p != (x, y)
    {
      IsQueenInSet(bits', p.0, p.1, N);
      IsQueenInSet(bits, p.0, p.1, N);
    }
  }

  // ----- solved -----

  // (x, y) is among the first squares, row by row, up to row a and in it up to column b.
  predicate Before(p: Pos, a: int, b: int) { p.0 < a || (p.0 == a && p.1 < b) }

  // A queen further on attacks p: in the same column, row or diagonal.
  ghost predicate AttackedForward(s: set<Pos>, p: Pos, N: nat) {
    exists k :: 1 <= k < N && Hit(s, p, k)
  }

  predicate Hit(s: set<Pos>, p: Pos, k: int) {
    (p.0 + k, p.1) in s || (p.0, p.1 + k) in s || (p.0 + k, p.1 + k) in s || (p.0 + k, p.1 - k) in s
  }

  // Of two queens that attack each other, one attacks the other forward.
  lemma ForwardIsEnough(s: set<Pos>, N: nat)
    requires OnBoard(s, N)
    ensures Peaceful(s) <==> forall p :: p in s ==> !AttackedForward(s, p, N)
  {
    if Peaceful(s) {
      forall p | p in s ensures !AttackedForward(s, p, N) {
        forall k | 1 <= k < N ensures !Hit(s, p, k) {
          assert Attacks(p, (p.0 + k, p.1)) && Attacks(p, (p.0, p.1 + k)) && Attacks(p, (p.0 + k, p.1 + k))
              && Attacks(p, (p.0 + k, p.1 - k));
        }
      }
    }
    if forall p :: p in s ==> !AttackedForward(s, p, N) {
      forall p, q | p in s && q in s ensures !Attacks(p, q) {
        NoAttack(s, N, p, q);
        NoAttack(s, N, q, p);
      }
    }
  }

  lemma NoAttack(s: set<Pos>, N: nat, p: Pos, q: Pos)
    requires OnBoard(s, N) && p in s && q in s && !AttackedForward(s, p, N)
    ensures Before(p, q.0, q.1) ==> !Attacks(p, q)
  {
    if Before(p, q.0, q.1) {
      var k := if q.0 > p.0 then q.0 - p.0 else q.1 - p.1;
      assert !Hit(s, p, k);
      assert q == (q.0, q.1);
    }
  }

  // solved: -1 if two queens attack each other, and else how many there are.
  method Solved(bits: array<bool>, N: nat) returns (queens: int)
    requires N * N <= bits.Length
    ensures queens == if Peaceful(Queens(bits[..], N)) then |Queens(bits[..], N)| else -1
  {
    hide Queens, AttackedForward, Peaceful, IsQueen, Attacks;
    ghost var s := Queens(bits[..], N);
    QueensOnBoard(bits[..], N);
    ForwardIsEnough(s, N);
    queens := 0;
    var x := 0;
    ghost var seen: set<Pos> := {};
    while x < N
      invariant 0 <= x <= N && queens == |seen|
      invariant forall p :: p in seen <==> p in s && Before(p, x, 0)
      invariant forall p :: p in seen ==> !AttackedForward(s, p, N)
    {
      var y := 0;
      while y < N
        invariant 0 <= y <= N && queens == |seen|
        invariant forall p :: p in seen <==> p in s && Before(p, x, y)
        invariant forall p :: p in seen ==> !AttackedForward(s, p, N)
      {
        IsQueenInSet(bits[..], x, y, N);
        if IsQueen(bits[..], x, y, N) {
          queens := queens + 1;
          var bad := HitForward(bits, x, y, N);
          if bad {
            return -1;
          }
          seen := seen + {(x, y)};
        }
        y := y + 1;
      }
      x := x + 1;
    }
    assert seen == s;
  }

  lemma QueensOnBoard(bits: seq<bool>, N: nat)
    ensures OnBoard(Queens(bits, N), N)
  {
  }

  // The inner loop of solved.
  method HitForward(bits: array<bool>, x: nat, y: nat, N: nat) returns (bad: bool)
    ensures bad == AttackedForward(Queens(bits[..], N), (x, y), N)
  {
    ghost var s := Queens(bits[..], N);
    var k := 1;
    while k < N
      invariant 1 <= k && forall j :: 1 <= j < k && j < N ==> !Hit(s, (x, y), j)
    {
      IsQueenInSet(bits[..], x + k, y, N);
      IsQueenInSet(bits[..], x, y + k, N);
      IsQueenInSet(bits[..], x + k, y + k, N);
      IsQueenInSet(bits[..], x + k, y - k, N);
      if IsQueen(bits[..], x + k, y, N) || IsQueen(bits[..], x, y + k, N)
         || IsQueen(bits[..], x + k, y + k, N) || IsQueen(bits[..], x + k, y - k, N) {
        assert Hit(s, (x, y), k);
        return true;
      }
      k := k + 1;
    }
    return false;
  }

  // ----- what is to be counted -----

  // One queen more in each row from row on, in the given columns.
  ghost function Place(s: set<Pos>, row: nat, cols: seq<nat>): set<Pos>
    decreases |cols|
  {
    if cols == [] then s else Place(s + {(row, cols[0])}, row + 1, cols[1..])
  }

  // One queen in each row from row on solves the board: there are N queens then, and none attacks another.
  ghost predicate Solves(s: set<Pos>, N: nat, row: nat, cols: seq<nat>) {
    && row + |cols| == N && (forall k :: 0 <= k < |cols| ==> cols[k] < N)
    && Peaceful(Place(s, row, cols)) && |Place(s, row, cols)| == N
  }

  ghost function Prepend(c: nat, tails: set<seq<nat>>): set<seq<nat>> { set t | t in tails :: [c] + t }

  // All that solve the board.
  ghost function Solutions(s: set<Pos>, N: nat, row: nat): set<seq<nat>>
    requires row <= N
    decreases N - row, 0
  {
    if row == N then (if Peaceful(s) && |s| == N then {[]} else {}) else SolutionsFrom(s, N, row, N)
  }

  // Those with the queen of this row in one of the first n columns.
  ghost function SolutionsFrom(s: set<Pos>, N: nat, row: nat, n: nat): set<seq<nat>>
    requires row < N && n <= N
    decreases N - row - 1, n + 1
  {
    if n == 0 then {}
    else SolutionsFrom(s, N, row, n - 1) + Prepend(n - 1, Solutions(s + {(row, n - 1)}, N, row + 1))
  }

  lemma {:induction false} SolutionsExact(s: set<Pos>, N: nat, row: nat, cols: seq<nat>)
    requires row <= N
    ensures cols in Solutions(s, N, row) <==> Solves(s, N, row, cols)
    decreases N - row, 0
  {
    if row < N {
      SolutionsFromExact(s, N, row, N, cols);
    }
  }

  lemma {:induction false} SolutionsFromExact(s: set<Pos>, N: nat, row: nat, n: nat, cols: seq<nat>)
    requires row < N && n <= N
    ensures cols in SolutionsFrom(s, N, row, n) <==> Solves(s, N, row, cols) && cols[0] < n
    decreases N - row - 1, n + 1
  {
    if n > 0 {
      SolutionsFromExact(s, N, row, n - 1, cols);
      var tails := Solutions(s + {(row, n - 1)}, N, row + 1);
      if cols != [] {
        SolutionsExact(s + {(row, n - 1)}, N, row + 1, cols[1..]);
        InPrepend(n - 1, tails, cols);
        if cols[0] == n - 1 {
          FirstQueen(s, N, row, cols);
        }
      }
    }
  }

  lemma InPrepend(c: nat, tails: set<seq<nat>>, cols: seq<nat>)
    requires cols != []
    ensures cols in Prepend(c, tails) <==> cols[0] == c && cols[1..] in tails
  {
    if cols[0] == c && cols[1..] in tails {
      assert cols == [c] + cols[1..];
    }
    if cols in Prepend(c, tails) {
      var t :| t in tails && cols == [c] + t;
      assert cols[1..] == t;
    }
  }

  lemma FirstQueen(s: set<Pos>, N: nat, row: nat, cols: seq<nat>)
    requires cols != [] && row < N && cols[0] < N
    ensures Solves(s, N, row, cols) <==> Solves(s + {(row, cols[0])}, N, row + 1, cols[1..])
  {
    var t := cols[1..];
    assert forall k :: 0 <= k < |t| ==> t[k] == cols[k + 1];
    assert forall k :: 1 <= k < |cols| ==> cols[k] == t[k - 1];
  }

  lemma {:induction false} PrependSize(c: nat, tails: set<seq<nat>>)
    ensures |Prepend(c, tails)| == |tails|
  {
    if tails != {} {
      var t :| t in tails;
      PrependSize(c, tails - {t});
      assert Prepend(c, tails) == Prepend(c, tails - {t}) + {[c] + t};
      assert [c] + t !in Prepend(c, tails - {t}) by {
        forall u | u in tails - {t} ensures [c] + u != [c] + t {
          assert ([c] + u)[1..] == u && ([c] + t)[1..] == t;
        }
      }
    } else {
      assert Prepend(c, tails) == {};
    }
  }

  // The numbers of solutions add up column by column.
  lemma SolutionsAdd(s: set<Pos>, N: nat, row: nat, n: nat)
    requires row < N && n < N
    ensures |SolutionsFrom(s, N, row, n + 1)| == |SolutionsFrom(s, N, row, n)| + |Solutions(s + {(row, n)}, N, row + 1)|
  {
    var a, tails := SolutionsFrom(s, N, row, n), Solutions(s + {(row, n)}, N, row + 1);
    PrependSize(n, tails);
    forall cols | cols in a ensures cols !in Prepend(n, tails) {
      SolutionsFromExact(s, N, row, n, cols);
    }
    assert a !! Prepend(n, tails);
  }

  // Queens that attack each other leave no solutions.
  lemma {:induction false} NoSolutions(s: set<Pos>, N: nat, row: nat)
    requires row <= N && !Peaceful(s)
    ensures Solutions(s, N, row) == {}
  {
    forall cols | cols in Solutions(s, N, row) ensures false {
      SolutionsExact(s, N, row, cols);
      PlaceKeeps(s, row, cols);
    }
  }

  lemma {:induction false} PlaceKeeps(s: set<Pos>, row: nat, cols: seq<nat>)
    ensures s <= Place(s, row, cols)
    decreases |cols|
  {
    if cols != [] {
      PlaceKeeps(s + {(row, cols[0])}, row + 1, cols[1..]);
    }
  }

  // ----- backtrack -----

  // struct board_state
  class BoardState {
    const bits: array<bool>
    const N: nat
    var row: nat

    constructor (bits: array<bool>, N: nat, row: nat)
      ensures this.bits == bits && this.N == N && this.row == row
    {
      this.bits, this.N, this.row := bits, N, row;
    }

    // The bits of the board fit, and there is no queen yet in this row and after it.
    ghost predicate Valid()
      reads this, bits
    {
      && N * N <= bits.Length && row <= N
      && forall p :: p in Queens(bits[..], N) ==> p.0 < row
    }

    ghost function Board(): set<Pos> reads this, bits { Queens(bits[..], N) }
  }

  // backtrack: the number of solutions of the board, which is as before in the end. The order in which the tasks of
  // the parallel branch run is arbitrary.
  method Backtrack(state: BoardState, maxParallelDepth: int) returns (slns: nat)
    requires state.Valid()
    modifies state, state.bits
    ensures slns == |Solutions(old(state.Board()), state.N, old(state.row))|
    ensures state.row == old(state.row) && state.bits[..] == old(state.bits[..])
    decreases state.N - state.row, 1
  {
    ghost var s := state.Board();
    if state.N == state.row {
      var queens := Solved(state.bits, state.N);
      return if queens == state.N then 1 else 0;
    }
    var queens := Solved(state.bits, state.N);
    if queens == -1 {
      NoSolutions(s, state.N, state.row);
      return 0;
    }
    if state.row < maxParallelDepth {
      slns := BacktrackParallel(state, maxParallelDepth);
    } else {
      slns := BacktrackInPlace(state, maxParallelDepth);
    }
  }

  // The branch that tries the columns of the row on the same board.
  method BacktrackInPlace(state: BoardState, maxParallelDepth: int) returns (slns: nat)
    requires state.Valid() && state.row < state.N
    modifies state, state.bits
    ensures slns == |Solutions(old(state.Board()), state.N, old(state.row))|
    ensures state.row == old(state.row) && state.bits[..] == old(state.bits[..])
    decreases state.N - state.row, 0
  {
    hide Queens, Solutions, SolutionsFrom;
    ghost var s, row, bits := state.Board(), state.row, state.bits[..];
    slns := 0;
    SolutionsEnds(s, state.N, row);
    state.row := state.row + 1;
    var i := 0;
    while i < state.N
      invariant 0 <= i <= state.N && state.row == row + 1 && state.bits[..] == bits
      invariant slns == |SolutionsFrom(s, state.N, row, i)|
    {
      var n := TryColumn(state, maxParallelDepth, i);
      slns := slns + n;
      SolutionsAdd(s, state.N, row, i);
      i := i + 1;
    }
    state.row := state.row - 1;
  }

  lemma SolutionsEnds(s: set<Pos>, N: nat, row: nat)
    requires row < N
    ensures SolutionsFrom(s, N, row, 0) == {} && SolutionsFrom(s, N, row, N) == Solutions(s, N, row)
  {
  }

  // One turn of the loop, in the row before state.row.
  method TryColumn(state: BoardState, maxParallelDepth: int, i: nat) returns (n: nat)
    requires 0 < state.row <= state.N && i < state.N && state.N * state.N <= state.bits.Length
    requires forall p :: p in state.Board() ==> p.0 < state.row - 1
    modifies state, state.bits
    ensures n == |Solutions(old(state.Board()) + {(old(state.row) - 1, i)}, state.N, old(state.row))|
    ensures state.row == old(state.row) && state.bits[..] == old(state.bits[..])
    decreases state.N - state.row, 2
  {
    hide Queens, Solutions, QueenAt;
    ghost var bits := state.bits[..];
    NoQueenYet(bits, state.N, state.row - 1, i);
    SetQueen(state.bits, state.row - 1, i, state.N);
    n := Backtrack(state, maxParallelDepth);
    UnsetQueen(state.bits, state.row - 1, i, state.N);
  }

  lemma NoQueenYet(bits: seq<bool>, N: nat, row: nat, i: nat)
    requires row < N && i < N && N * N <= |bits| && forall p :: p in Queens(bits, N) ==> p.0 < row
    ensures Index(row, i, N) < |bits| && !bits[Index(row, i, N)]
    ensures bits[Index(row, i, N) := true][Index(row, i, N) := false] == bits
  {
    IndexFits(row, i, N);
    assert (row as int, i as int) !in Queens(bits, N);
  }

  // The branch that tries the columns on copies of the board, all but the last one in tasks of their own. Each task has
  // its own board; here they run in any order, when their futures are waited for.
  method BacktrackParallel(state: BoardState, maxParallelDepth: int) returns (slns: nat)
    requires state.Valid() && state.row < state.N
    ensures slns == |Solutions(state.Board(), state.N, state.row)|
    decreases state.N - state.row, 0
  {
    hide Queens, Solutions, SolutionsFrom;
    ghost var s, N, row := state.Board(), state.N, state.row;
    var results := RunTasks(state, maxParallelDepth);
    slns := 0;
    SolutionsEnds(s, N, row);
    var i := 0;
    while i < state.N
      invariant 0 <= i <= N && slns == |SolutionsFrom(s, N, row, i)|
    {
      slns := slns + results[i];
      SolutionsAdd(s, N, row, i);
      i := i + 1;
    }
  }

  // n is the number of solutions with the queen of this row in column i.
  ghost predicate CountsColumn(n: nat, s: set<Pos>, N: nat, row: nat, i: nat)
    requires row < N
  {
    n == |Solutions(s + {(row, i)}, N, row + 1)|
  }

  // Runs the tasks in an arbitrary order.
  method RunTasks(state: BoardState, maxParallelDepth: int) returns (results: seq<nat>)
    requires state.Valid() && state.row < state.N
    ensures |results| == state.N
    ensures forall i: nat :: i < state.N ==> CountsColumn(results[i], state.Board(), state.N, state.row, i)
    decreases state.N - state.row - 1, 3
  {
    hide Queens, CountsColumn;
    ghost var s, N, row := state.Board(), state.N, state.row;
    results := seq(state.N, _ => 0);
    var todo := Below(state.N);
    while todo != {}
      invariant todo <= Below(N) && |results| == N && state.Valid() && state.Board() == s
      invariant forall i: nat :: i < N && i !in todo ==> CountsColumn(results[i], s, N, row, i)
      decreases |todo|
    {
      var i :| i in todo;
      assert i in Below(N);
      var n := RunTask(state, maxParallelDepth, i);
      results := results[i := n];
      todo := todo - {i};
    }
  }

  function Below(n: nat): (r: set<nat>)
    ensures forall i: nat :: i in r <==> i < n
  {
    if n == 0 then {} else Below(n - 1) + {n - 1}
  }

  // Sets up the board for column i, and backtracks from it.
  method RunTask(state: BoardState, maxParallelDepth: int, i: nat) returns (n: nat)
    requires state.Valid() && state.row < state.N && i < state.N
    ensures CountsColumn(n, state.Board(), state.N, state.row, i)
    decreases state.N - state.row - 1, 2
  {
    hide Solutions;
    var bits := new bool[state.bits.Length](j requires 0 <= j < state.bits.Length reads state.bits => state.bits[j]);
    assert bits[..] == state.bits[..];
    var board := new BoardState(bits, state.N, state.row + 1);
    SetQueen(board.bits, state.row, i, state.N);
    n := Backtrack(board, maxParallelDepth);
  }

  // benchmark: counts from the empty board. A solution is a column for each row, with no two queens in the same
  // column or diagonal.
  method Count(N: nat, maxParallelDepth: int) returns (slns: nat, ghost found: set<seq<nat>>)
    ensures slns == |found|
    ensures forall cols :: cols in found <==> NoTwoAttack(cols, N)
  {
    var bits := new bool[N * N](_ => false);
    var state := new BoardState(bits, N, 0);
    found := Solutions({}, N, 0);
    assert Queens(bits[..], N) == {};
    slns := Backtrack(state, maxParallelDepth);
    forall cols ensures cols in found <==> NoTwoAttack(cols, N) {
      SolutionsExact({}, N, 0, cols);
      EmptyBoard(cols, N);
    }
  }

  // Columns so many rows apart that queens there do not attack each other.
  predicate Different(c: int, d: int, rows: int) { c != d && c - d != rows && d - c != rows }

  ghost predicate NoTwoAttack(cols: seq<nat>, N: nat) {
    && |cols| == N && (forall i :: 0 <= i < N ==> cols[i] < N)
    && forall i, j :: 0 <= i < j < N ==> Different(cols[i], cols[j], j - i)
  }

  lemma {:induction false} Placed(s: set<Pos>, row: nat, cols: seq<nat>)
    ensures forall p :: p in Place(s, row, cols) <==>
      p in s || (row <= p.0 < row + |cols| && p.1 == cols[p.0 - row])
    ensures (forall p :: p in s ==> p.0 < row) ==> |Place(s, row, cols)| == |s| + |cols|
    decreases |cols|
  {
    if cols != [] {
      Placed(s + {(row, cols[0])}, row + 1, cols[1..]);
    }
  }

  lemma EmptyBoard(cols: seq<nat>, N: nat)
    ensures Solves({}, N, 0, cols) <==> NoTwoAttack(cols, N)
  {
    Placed({}, 0, cols);
    var b := Place({}, 0, cols);
    hide Place, Peaceful, Different;
    assert forall p :: p in b <==> InRows(p, cols);
    if Peaceful(b) {
      PeaceMeansDifferent(b, cols);
    }
    if forall i, j :: 0 <= i < j < |cols| ==> Different(cols[i], cols[j], j - i) {
      DifferentMeansPeace(b, cols);
    }
  }

  ghost predicate InRows(p: Pos, cols: seq<nat>) { 0 <= p.0 < |cols| && p.1 == cols[p.0] }

  lemma PeaceMeansDifferent(b: set<Pos>, cols: seq<nat>)
    requires (forall p :: p in b <==> InRows(p, cols)) && Peaceful(b)
    ensures forall i, j :: 0 <= i < j < |cols| ==> Different(cols[i], cols[j], j - i)
  {
    hide Attacks, Different;
    forall i, j | 0 <= i < j < |cols| ensures Different(cols[i], cols[j], j - i) {
      assert InRows((i, cols[i] as int), cols) && InRows((j, cols[j] as int), cols);
      AttacksIfNot(i, j, cols[i], cols[j]);
    }
  }

  lemma DifferentMeansPeace(b: set<Pos>, cols: seq<nat>)
    requires forall p :: p in b <==> InRows(p, cols)
    requires forall i, j :: 0 <= i < j < |cols| ==> Different(cols[i], cols[j], j - i)
    ensures Peaceful(b)
  {
    hide Attacks, Different;
    forall p, q | p in b && q in b ensures !Attacks(p, q) {
      if p.0 < q.0 {
        AttacksIfNot(p.0, q.0, cols[p.0], cols[q.0]);
      } else if q.0 < p.0 {
        AttacksIfNot(q.0, p.0, cols[q.0], cols[p.0]);
      } else {
        NotItself(p);
      }
    }
  }

  lemma NotItself(p: Pos)
    ensures !Attacks(p, p)
  {
  }

  lemma AttacksIfNot(i: nat, j: nat, x: nat, y: nat)
    requires i < j
    ensures Attacks((i, x as int), (j, y as int)) <==> !Different(x, y, j - i)
    ensures Attacks((j, y as int), (i, x as int)) <==> !Different(x, y, j - i)
  {
  }
}
