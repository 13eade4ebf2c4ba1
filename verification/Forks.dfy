/** Tasks that fork and join over shared memory, one access at a time, and what every interleaving of them does. */
module Forks {
  // An element of the array that is sorted, or of the buffer.
  datatype Loc = A(i: nat) | B(i: nat)

  datatype Mem = Mem(a: seq<int>, b: seq<int>)

  predicate Inside(m: Mem, l: Loc) { if l.A? then l.i < |m.a| else l.i < |m.b| }

  function Get(m: Mem, l: Loc): int {
    if !Inside(m, l) then 0 else if l.A? then m.a[l.i] else m.b[l.i]
  }

  function Put(m: Mem, l: Loc, v: int): Mem {
    if !Inside(m, l) then m else if l.A? then m.(a := m.a[l.i := v]) else m.(b := m.b[l.i := v])
  }

  // The two values that a task holds outside memory.
  datatype Reg = T | X
  datatype Regs = Regs(t: int, x: int)

  function Value(regs: Regs, r: Reg): int { if r.T? then regs.t else regs.x }
  function SetReg(regs: Regs, r: Reg, v: int): Regs { if r.T? then regs.(t := v) else regs.(x := v) }

  const NO_REGS := Regs(0, 0)

  // What a task still has to do. Less tests whether t is less than x; Fork runs two tasks and joins them.
  datatype Prog =
    | Done
    | Load(r: Reg, l: Loc, next: Prog)
    | Store(l: Loc, r: Reg, next: Prog)
    | Less(yes: Prog, no: Prog)
    | Fork(left: Prog, right: Prog, after: Prog)

  // A task and those it waits for.
  datatype Run = Single(regs: Regs, p: Prog) | Joining(left: Run, right: Run, regs: Regs, after: Prog)

  // Which of the tasks makes the next step.
  datatype Way = Here | ToLeft(w: Way) | ToRight(w: Way)

  predicate Finished(r: Run) { r.Single? && r.p.Done? }

  predicate Enabled(r: Run, w: Way) {
    match w
    case Here => if r.Single? then !r.p.Done? else Finished(r.left) && Finished(r.right)
    case ToLeft(v) => r.Joining? && Enabled(r.left, v)
    case ToRight(v) => r.Joining? && Enabled(r.right, v)
  }

  // One step: an access to memory, a test, a fork or a join.
  function Step(r: Run, w: Way, m: Mem): (Run, Mem)
    requires Enabled(r, w)
  {
    match w
    case Here =>
      if r.Joining? then (Single(r.regs, r.after), m)
      else
        (match r.p
         case Load(reg, l, next) => (Single(SetReg(r.regs, reg, Get(m, l)), next), m)
         case Store(l, reg, next) => (Single(r.regs, next), Put(m, l, Value(r.regs, reg)))
         case Less(yes, no) => (Single(r.regs, if r.regs.t < r.regs.x then yes else no), m)
         case Fork(x, y, after) => (Joining(Single(NO_REGS, x), Single(NO_REGS, y), r.regs, after), m))
    case ToLeft(v) => var s := Step(r.left, v, m); (r.(left := s.0), s.1)
    case ToRight(v) => var s := Step(r.right, v, m); (r.(right := s.0), s.1)
  }

  // ----- one task after the other -----

  function Eval(p: Prog, regs: Regs, m: Mem): Mem
    decreases p
  {
    match p
    case Done => m
    case Load(r, l, next) => Eval(next, SetReg(regs, r, Get(m, l)), m)
    case Store(l, r, next) => Eval(next, regs, Put(m, l, Value(regs, r)))
    case Less(yes, no) => if regs.t < regs.x then Eval(yes, regs, m) else Eval(no, regs, m)
    case Fork(x, y, after) => Eval(after, regs, Eval(y, NO_REGS, Eval(x, NO_REGS, m)))
  }

  function EvalRun(r: Run, m: Mem): Mem {
    match r
    case Single(regs, p) => Eval(p, regs, m)
    case Joining(x, y, regs, after) => Eval(after, regs, EvalRun(y, EvalRun(x, m)))
  }

  lemma DoneEval(regs: Regs, m: Mem)
    ensures Eval(Done, regs, m) == m
  {
  }

  lemma ForkEval(x: Prog, y: Prog, after: Prog, regs: Regs, m: Mem)
    ensures Eval(Fork(x, y, after), regs, m) == Eval(after, regs, Eval(y, NO_REGS, Eval(x, NO_REGS, m)))
  {
  }

  // ----- the elements that tasks use -----

  ghost function Locs(p: Prog): set<Loc> {
    match p
    case Done => {}
    case Load(_, l, next) => {l} + Locs(next)
    case Store(l, _, next) => {l} + Locs(next)
    case Less(yes, no) => Locs(yes) + Locs(no)
    case Fork(x, y, after) => Locs(x) + Locs(y) + Locs(after)
  }

  ghost function RunLocs(r: Run): set<Loc> {
    match r
    case Single(_, p) => Locs(p)
    case Joining(x, y, _, after) => RunLocs(x) + RunLocs(y) + Locs(after)
  }

  // Tasks that run at the same time use different elements.
  ghost predicate RaceFree(p: Prog) {
    match p
    case Done => true
    case Load(_, _, next) => RaceFree(next)
    case Store(_, _, next) => RaceFree(next)
    case Less(yes, no) => RaceFree(yes) && RaceFree(no)
    case Fork(x, y, after) => Locs(x) !! Locs(y) && RaceFree(x) && RaceFree(y) && RaceFree(after)
  }

  ghost predicate RaceFreeRun(r: Run) {
    match r
    case Single(_, p) => RaceFree(p)
    case Joining(x, y, _, after) => RunLocs(x) !! RunLocs(y) && RaceFreeRun(x) && RaceFreeRun(y) && RaceFree(after)
  }

  ghost predicate SameShape(m: Mem, n: Mem) { |m.a| == |n.a| && |m.b| == |n.b| }

  ghost predicate SameOn(m: Mem, n: Mem, ls: iset<Loc>) {
    SameShape(m, n) && forall l :: l in ls ==> Get(m, l) == Get(n, l)
  }

  ghost predicate SameBut(m: Mem, n: Mem, ls: set<Loc>) {
    SameShape(m, n) && forall l :: l !in ls ==> Get(m, l) == Get(n, l)
  }

  lemma SameEverywhere(m: Mem, n: Mem)
    requires SameShape(m, n) && forall l :: Get(m, l) == Get(n, l)
    ensures m == n
  {
    forall i | 0 <= i < |m.a| ensures m.a[i] == n.a[i] {
      assert Get(m, A(i)) == Get(n, A(i));
    }
    forall i | 0 <= i < |m.b| ensures m.b[i] == n.b[i] {
      assert Get(m, B(i)) == Get(n, B(i));
    }
  }

  lemma PutGet(m: Mem, l: Loc, v: int)
    ensures SameShape(m, Put(m, l, v))
    ensures forall k :: Get(Put(m, l, v), k) == if k == l && Inside(m, l) then v else Get(m, k)
  {
  }

  lemma {:induction false} EvalChanges(p: Prog, regs: Regs, m: Mem)
    ensures SameBut(m, Eval(p, regs, m), Locs(p))
    decreases p
  {
    match p
    case Done =>
    case Load(r, l, next) => EvalChanges(next, SetReg(regs, r, Get(m, l)), m);
    case Store(l, r, next) =>
      PutGet(m, l, Value(regs, r));
      EvalChanges(next, regs, Put(m, l, Value(regs, r)));
    case Less(yes, no) =>
      EvalChanges(yes, regs, m);
      EvalChanges(no, regs, m);
    case Fork(x, y, after) =>
      var m1 := Eval(x, NO_REGS, m);
      var m2 := Eval(y, NO_REGS, m1);
      EvalChanges(x, NO_REGS, m);
      EvalChanges(y, NO_REGS, m1);
      EvalChanges(after, regs, m2);
  }

  // What a task leaves in the elements of ls depends on those only, if it uses no others.
  lemma {:induction false} EvalDepends(p: Prog, regs: Regs, m: Mem, n: Mem, ls: iset<Loc>)
    requires SameOn(m, n, ls) && forall l :: l in Locs(p) ==> l in ls
    ensures SameOn(Eval(p, regs, m), Eval(p, regs, n), ls)
    decreases p
  {
    match p
    case Done =>
    case Load(r, l, next) => EvalDepends(next, SetReg(regs, r, Get(m, l)), m, n, ls);
    case Store(l, r, next) =>
      PutGet(m, l, Value(regs, r));
      PutGet(n, l, Value(regs, r));
      EvalDepends(next, regs, Put(m, l, Value(regs, r)), Put(n, l, Value(regs, r)), ls);
    case Less(yes, no) =>
      EvalDepends(yes, regs, m, n, ls);
      EvalDepends(no, regs, m, n, ls);
    case Fork(x, y, after) =>
      EvalDepends(x, NO_REGS, m, n, ls);
      EvalDepends(y, NO_REGS, Eval(x, NO_REGS, m), Eval(x, NO_REGS, n), ls);
      EvalDepends(after, regs, Eval(y, NO_REGS, Eval(x, NO_REGS, m)), Eval(y, NO_REGS, Eval(x, NO_REGS, n)), ls);
  }

  lemma {:induction false} EvalRunChanges(r: Run, m: Mem)
    ensures SameBut(m, EvalRun(r, m), RunLocs(r))
  {
    match r
    case Single(regs, p) => EvalChanges(p, regs, m);
    case Joining(x, y, regs, after) =>
      var m1 := EvalRun(x, m);
      var m2 := EvalRun(y, m1);
      EvalRunChanges(x, m);
      EvalRunChanges(y, m1);
      EvalChanges(after, regs, m2);
  }

  lemma {:induction false} EvalRunDepends(r: Run, m: Mem, n: Mem, ls: iset<Loc>)
    requires SameOn(m, n, ls) && forall l :: l in RunLocs(r) ==> l in ls
    ensures SameOn(EvalRun(r, m), EvalRun(r, n), ls)
  {
    match r
    case Single(regs, p) => EvalDepends(p, regs, m, n, ls);
    case Joining(x, y, regs, after) =>
      EvalRunDepends(x, m, n, ls);
      EvalRunDepends(y, EvalRun(x, m), EvalRun(x, n), ls);
      EvalDepends(after, regs, EvalRun(y, EvalRun(x, m)), EvalRun(y, EvalRun(x, n)), ls);
  }

  // ----- steps -----

  // A step uses elements of its task only, and those are all that the task uses later.
  lemma {:induction false} StepChanges(r: Run, w: Way, m: Mem)
    requires Enabled(r, w)
    ensures SameBut(m, Step(r, w, m).1, RunLocs(r)) && RunLocs(Step(r, w, m).0) <= RunLocs(r)
    ensures RaceFreeRun(r) ==> RaceFreeRun(Step(r, w, m).0)
    decreases w
  {
    match w
    case Here =>
      if r.Single? && r.p.Store? {
        PutGet(m, r.p.l, Value(r.regs, r.p.r));
      }
    case ToLeft(v) => StepChanges(r.left, v, m);
    case ToRight(v) => StepChanges(r.right, v, m);
  }

  lemma {:induction false} StepDepends(r: Run, w: Way, m: Mem, n: Mem, ls: iset<Loc>)
    requires Enabled(r, w) && SameOn(m, n, ls) && forall l :: l in RunLocs(r) ==> l in ls
    ensures Step(r, w, m).0 == Step(r, w, n).0 && SameOn(Step(r, w, m).1, Step(r, w, n).1, ls)
    decreases w
  {
    match w
    case Here =>
      if r.Single? && r.p.Store? {
        PutGet(m, r.p.l, Value(r.regs, r.p.r));
        PutGet(n, r.p.l, Value(r.regs, r.p.r));
      }
    case ToLeft(v) => StepDepends(r.left, v, m, n, ls);
    case ToRight(v) => StepDepends(r.right, v, m, n, ls);
  }

  // No step changes what the tasks will have done in the end.
  lemma {:induction false} StepKeepsEnd(r: Run, w: Way, m: Mem)
    requires Enabled(r, w) && RaceFreeRun(r)
    ensures EvalRun(Step(r, w, m).0, Step(r, w, m).1) == EvalRun(r, m)
    decreases w
  {
    match w
    case Here =>
    case ToLeft(v) => StepKeepsEnd(r.left, v, m);
    case ToRight(v) =>
      StepKeepsEnd(r.right, v, EvalRun(r.left, m));
      StepCommutes(r.left, r.right, v, m);
  }

  // A step of one task and all of another, with different elements, can be done in either order.
  lemma StepCommutes(x: Run, y: Run, w: Way, m: Mem)
    requires Enabled(y, w) && RunLocs(x) !! RunLocs(y)
    ensures Step(y, w, EvalRun(x, m)) == (Step(y, w, m).0, EvalRun(x, Step(y, w, m).1))
  {
    var m1, s := EvalRun(x, m), Step(y, w, m);
    var s1, m2 := Step(y, w, m1), EvalRun(x, s.1);
    var ys, others := iset l | l in RunLocs(y), iset l | l !in RunLocs(y);
    EvalRunChanges(x, m);
    EvalRunChanges(x, s.1);
    StepDepends(y, w, m, m1, ys);
    StepChanges(y, w, m);
    StepChanges(y, w, m1);
    EvalRunDepends(x, m, s.1, others);
    hide Step, EvalRun, RunLocs, Enabled;
    forall l ensures Get(s1.1, l) == Get(m2, l) {
      if l in RunLocs(y) {
        assert l in ys && Get(s1.1, l) == Get(s.1, l);
      } else {
        assert l in others && Get(s1.1, l) == Get(m1, l);
      }
    }
    SameEverywhere(s1.1, m2);
  }

  // ----- whole runs -----

  function Size(p: Prog): nat {
    match p
    case Done => 0
    case Load(_, _, next) => 1 + Size(next)
    case Store(_, _, next) => 1 + Size(next)
    case Less(yes, no) => 1 + Size(yes) + Size(no)
    case Fork(x, y, after) => 2 + Size(x) + Size(y) + Size(after)
  }

  function RunSize(r: Run): nat {
    match r
    case Single(_, p) => Size(p)
    case Joining(x, y, _, after) => 1 + RunSize(x) + RunSize(y) + Size(after)
  }

  lemma {:induction false} StepShrinks(r: Run, w: Way, m: Mem)
    requires Enabled(r, w)
    ensures RunSize(Step(r, w, m).0) < RunSize(r)
    decreases w
  {
    match w
    case Here =>
    case ToLeft(v) => StepShrinks(r.left, v, m);
    case ToRight(v) => StepShrinks(r.right, v, m);
  }

  // Tasks that are not finished can make a step.
  function SomeWay(r: Run): (w: Way)
    requires !Finished(r)
    ensures Enabled(r, w)
  {
    if r.Single? then Here
    else if !Finished(r.left) then ToLeft(SomeWay(r.left))
    else if !Finished(r.right) then ToRight(SomeWay(r.right))
    else Here
  }

  // The steps of a schedule, one after the other.
  predicate Possible(r: Run, ws: seq<Way>, m: Mem)
    decreases |ws|
  {
    ws == [] || (Enabled(r, ws[0]) && var s := Step(r, ws[0], m); Possible(s.0, ws[1..], s.1))
  }

  function After(r: Run, ws: seq<Way>, m: Mem): (Run, Mem)
    requires Possible(r, ws, m)
    decreases |ws|
  {
    if ws == [] then (r, m) else var s := Step(r, ws[0], m); After(s.0, ws[1..], s.1)
  }

  lemma {:induction false} ScheduleKeepsEnd(r: Run, ws: seq<Way>, m: Mem)
    requires Possible(r, ws, m) && RaceFreeRun(r)
    ensures EvalRun(After(r, ws, m).0, After(r, ws, m).1) == EvalRun(r, m)
    ensures |ws| + RunSize(After(r, ws, m).0) <= RunSize(r)
    decreases |ws|
  {
    if ws != [] {
      var s := Step(r, ws[0], m);
      StepKeepsEnd(r, ws[0], m);
      StepChanges(r, ws[0], m);
      StepShrinks(r, ws[0], m);
      ScheduleKeepsEnd(s.0, ws[1..], s.1);
    }
  }

  // Every schedule of a program without races is finite, can go on until all is done, and ends as one task after the
  // other does.
  lemma AnyScheduleEndsTheSame(p: Prog, ws: seq<Way>, m: Mem)
    requires RaceFree(p) && Possible(Single(NO_REGS, p), ws, m)
    ensures |ws| <= Size(p)
    ensures
      var end := After(Single(NO_REGS, p), ws, m);
      if Finished(end.0) then end.1 == Eval(p, NO_REGS, m) else exists w :: Enabled(end.0, w)
  {
    ScheduleKeepsEnd(Single(NO_REGS, p), ws, m);
    var end := After(Single(NO_REGS, p), ws, m);
    if !Finished(end.0) {
      assert Enabled(end.0, SomeWay(end.0));
    }
  }

  // ----- running on arrays -----

  // Some task that can make a step.
  method Choose(r: Run) returns (w: Way)
    requires !Finished(r)
    ensures Enabled(r, w)
  {
    if r.Single? || (Finished(r.left) && Finished(r.right)) {
      return Here;
    }
    var leftFirst: bool := *;
    if Finished(r.right) || (leftFirst && !Finished(r.left)) {
      w := Choose(r.left);
      w := ToLeft(w);
    } else {
      w := Choose(r.right);
      w := ToRight(w);
    }
  }

  // The step of Step, on arrays.
  method Perform(r: Run, w: Way, a: array<int>, b: array<int>) returns (r': Run)
    requires Enabled(r, w) && a != b
    modifies a, b
    ensures (r', Mem(a[..], b[..])) == Step(r, w, Mem(old(a[..]), old(b[..])))
    decreases w
  {
    match w {
      case ToLeft(v) =>
        var x := Perform(r.left, v, a, b);
        r' := r.(left := x);
      case ToRight(v) =>
        var y := Perform(r.right, v, a, b);
        r' := r.(right := y);
      case Here =>
        if r.Joining? {
          return Single(r.regs, r.after);
        }
        match r.p {
          case Load(reg, l, next) =>
            var v := 0;
            if l.A? && l.i < a.Length {
              v := a[l.i];
            } else if l.B? && l.i < b.Length {
              v := b[l.i];
            }
            r' := Single(SetReg(r.regs, reg, v), next);
          case Store(l, reg, next) =>
            if l.A? && l.i < a.Length {
              a[l.i] := Value(r.regs, reg);
            } else if l.B? && l.i < b.Length {
              b[l.i] := Value(r.regs, reg);
            }
            r' := Single(r.regs, next);
          case Less(yes, no) =>
            r' := Single(r.regs, if r.regs.t < r.regs.x then yes else no);
          case Fork(x, y, after) =>
            r' := Joining(Single(NO_REGS, x), Single(NO_REGS, y), r.regs, after);
        }
    }
  }

  // Runs a program on the arrays until all is done, each step that of any task that can make one.
  method RunAll(p: Prog, a: array<int>, b: array<int>)
    requires a != b && RaceFree(p)
    modifies a, b
    ensures Mem(a[..], b[..]) == Eval(p, NO_REGS, Mem(old(a[..]), old(b[..])))
  {
    var r := Single(NO_REGS, p);
    while !Finished(r)
      invariant RaceFreeRun(r) && EvalRun(r, Mem(a[..], b[..])) == Eval(p, NO_REGS, Mem(old(a[..]), old(b[..])))
      decreases RunSize(r)
    {
      hide Step, Eval, EvalRun, RaceFree, RaceFreeRun, RunSize;
      ghost var m := Mem(a[..], b[..]);
      var w := Choose(r);
      StepKeepsEnd(r, w, m);
      StepChanges(r, w, m);
      StepShrinks(r, w, m);
      r := Perform(r, w, a, b);
    }
  }

  // ----- the elements that programs use, by their range -----

  // Elements lo to hi of the array, and blo to bhi of the buffer (exclusive).
  datatype Block = Block(lo: int, hi: int, blo: int, bhi: int)

  predicate Within(l: Loc, e: Block) {
    if l.A? then e.lo <= l.i < e.hi else e.blo <= l.i < e.bhi
  }

  predicate Covers(e: Block, d: Block) {
    e.lo <= d.lo && d.hi <= e.hi && (d.blo >= d.bhi || (e.blo <= d.blo && d.bhi <= e.bhi))
  }

  // All that p uses but k does not lies in e, and p has no races that k does not have.
  ghost predicate Stays(p: Prog, k: Prog, e: Block) {
    (forall l :: l in Locs(p) ==> Within(l, e) || l in Locs(k)) && (RaceFree(k) ==> RaceFree(p))
  }

  lemma StaysItself(k: Prog, e: Block)
    ensures Stays(k, k, e)
  {
  }

  lemma LoadStays(r: Reg, l: Loc, next: Prog, k: Prog, e: Block)
    requires Stays(next, k, e) && Within(l, e)
    ensures Stays(Load(r, l, next), k, e)
  {
  }

  lemma StoreStays(l: Loc, r: Reg, next: Prog, k: Prog, e: Block)
    requires Stays(next, k, e) && Within(l, e)
    ensures Stays(Store(l, r, next), k, e)
  {
  }

  lemma LessStays(yes: Prog, no: Prog, k: Prog, e: Block)
    requires Stays(yes, k, e) && Stays(no, k, e)
    ensures Stays(Less(yes, no), k, e)
  {
  }

  // Forked tasks that use disjoint parts of e.
  lemma ForkStays(x: Prog, y: Prog, after: Prog, k: Prog, d: Block, f: Block, e: Block)
    requires Stays(x, Done, d) && Stays(y, Done, f) && Stays(after, k, e) && Covers(e, d) && Covers(e, f)
    requires d.hi <= f.lo && d.bhi <= f.blo
    ensures Stays(Fork(x, y, after), k, e)
  {
  }

  lemma StaysWider(p: Prog, k: Prog, d: Block, e: Block)
    requires Stays(p, k, d) && Covers(e, d)
    ensures Stays(p, k, e)
  {
  }

  lemma StaysThrough(p: Prog, q: Prog, k: Prog, e: Block)
    requires Stays(p, q, e) && Stays(q, k, e)
    ensures Stays(p, k, e)
  {
  }
}
