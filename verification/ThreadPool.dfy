/** How threads claim tasks in threadlab/tests/threadpool.c: a step for each thing done to shared state. */
module ThreadPool {
  import opened Options

  type Fid = nat
  type Tid = nat
  type Value = int

  datatype Status = WAITING | RUNNING | FINISHED

  // The global task list, and that of each worker. A queue stands for its lock too.
  datatype Queue = Global | Local(worker: Tid)

  // Why a thread takes a task: a worker looks for work, or future_get runs the future it was asked for, or another.
  datatype Why = Work | Get(asked: Fid) | Help(asked: Fid)

  // A future that a thread has taken off queue q.
  datatype Claim = Claim(q: Queue, f: Fid, why: Why)

  // How future_get comes to read a result: of the future asked for, once finished; of another one that it ran; or of
  // the future asked for while that is running.
  datatype Via = Settled | Helped | Unsettled

  // Where a thread is, in its innermost call.
  datatype Pc =
    | Free                                  // in the body of a task, or in none
    | Wants(q: Queue, why: Why)             // about to lock
    | Locked(q: Queue, why: Why)
    | Popped(c: Claim)                      // locked, off the queue, not RUNNING yet
    | Marked(c: Claim)                      // locked, RUNNING
    | Returned(c: Claim)                    // not locked, result stored
    | Finishing(c: Claim)                   // locked again
    | Done(c: Claim)                        // locked, FINISHED
    | Reading(f: Fid, asked: Fid, via: Via) // not locked, about to read f's result for future_get(asked)
    | SubmitWants(q: Queue)
    | SubmitLocked(q: Queue)
    | Submitted(q: Queue)

  // The bodies of tasks that a thread is in, outermost first.
  datatype Thread = Thread(bodies: seq<Claim>, pc: Pc)

  // Who holds a future that is off its queue and not finished: thread t, in the given body of its.
  datatype Place = Nobody | At(t: Tid, level: nat)

  // starts counts the times that the task's function was called; it and holder are no part of the program's state.
  datatype Future = Future(owner: Queue, status: Status, result: Option<Value>, starts: nat, holder: Place)

  datatype State = State(workers: set<Tid>, futures: map<Fid, Future>, queues: map<Queue, seq<Fid>>,
                         held: map<Queue, Tid>, threads: map<Tid, Thread>)

  datatype Event =
    | StartWork(t: Tid, q: Queue)  // a worker looks at one of the lists
    | Acquire(t: Tid)
    | GiveUp(t: Tid)               // the list is empty
    | Take(t: Tid)                 // list_pop_back
    | Mark(t: Tid)                 // state = RUNNING
    | Begin(t: Tid)                // unlocks, and calls the function
    | Call(t: Tid, f: Fid)         // future_get(f)
    | Remove(t: Tid)               // list_remove of a WAITING future
    | Another(t: Tid)              // list_pop_front while the future is RUNNING
    | SeeFinished(t: Tid)
    | SeeRunning(t: Tid)           // RUNNING, and its list is empty
    | Wait(t: Tid)                 // pthread_cond_wait
    | Return(t: Tid, v: Value)     // the function returns, and its result is stored
    | Relock(t: Tid)
    | Finish(t: Tid)               // state = FINISHED
    | Release(t: Tid)
    | Read(t: Tid)                 // future_get returns
    | CallSubmit(t: Tid)
    | LockSubmit(t: Tid)
    | Push(t: Tid, f: Fid)         // list_push_front of the new future f
    | ReleaseSubmit(t: Tid)

  function QueueOf(s: State, t: Tid): Queue { if t in s.workers then Local(t) else Global }

  // A thread calls functions of the pool from the body of a task, or if it is not a worker.
  predicate MayCall(s: State, t: Tid)
    requires t in s.threads
  {
    s.threads[t].pc == Free && (s.threads[t].bodies != [] || t !in s.workers)
  }

  function Last<T>(q: seq<T>): T requires q != [] { q[|q| - 1] }

  predicate Enabled(s: State, e: Event) {
    && e.t in s.threads
    && var th := s.threads[e.t];
       var pc := th.pc;
       match e
       case StartWork(t, q) => pc == Free && th.bodies == [] && t in s.workers && q in s.queues
       case Acquire(_) => pc.Wants? && pc.q !in s.held
       case GiveUp(_) => pc.Locked? && pc.why == Work && pc.q in s.queues && s.queues[pc.q] == []
       case Take(_) => pc.Locked? && pc.why == Work && pc.q in s.queues && s.queues[pc.q] != []
       case Mark(_) => pc.Popped? && pc.c.f in s.futures
       case Begin(_) => pc.Marked? && pc.c.f in s.futures
       case Call(t, f) => MayCall(s, t) && f in s.futures
       case Remove(_) => Asks(s, pc) && pc.q != Global && s.futures[pc.why.asked].status == WAITING
       case Another(_) => Asks(s, pc) && pc.q != Global && s.futures[pc.why.asked].status == RUNNING
           && s.queues[pc.q] != []
       case SeeFinished(_) => Asks(s, pc) && s.futures[pc.why.asked].status == FINISHED
       case SeeRunning(_) => Asks(s, pc) && pc.q != Global && s.futures[pc.why.asked].status == RUNNING
           && s.queues[pc.q] == []
       case Wait(_) => Asks(s, pc) && pc.q == Global && s.futures[pc.why.asked].status != FINISHED
       case Return(_, _) => pc == Free && th.bodies != [] && Last(th.bodies).f in s.futures
       case Relock(_) => pc.Returned? && pc.c.q !in s.held
       case Finish(_) => pc.Finishing? && pc.c.f in s.futures
       case Release(_) => pc.Done?
       case Read(_) => pc.Reading?
       case CallSubmit(t) => MayCall(s, t)
       case LockSubmit(_) => pc.SubmitWants? && pc.q !in s.held
       case Push(_, f) => pc.SubmitLocked? && pc.q in s.queues && f !in s.futures
       case ReleaseSubmit(_) => pc.Submitted?
  }

  // future_get has the lock of the future it was asked for.
  predicate Asks(s: State, pc: Pc) {
    pc.Locked? && pc.why.Get? && pc.why.asked in s.futures && pc.q in s.queues
  }

  function WithPc(s: State, t: Tid, pc: Pc): State
    requires t in s.threads
  {
    s.(threads := s.threads[t := s.threads[t].(pc := pc)])
  }

  // t has the future at position k of queue q in hand.
  function TakenOff(s: State, t: Tid, q: Queue, k: nat, why: Why): State
    requires t in s.threads && q in s.queues && k < |s.queues[q]| && s.queues[q][k] in s.futures
  {
    var f := s.queues[q][k];
    var s1 := WithPc(s, t, Popped(Claim(q, f, why)));
    s1.(queues := s.queues[q := s.queues[q][..k] + s.queues[q][k + 1..]],
        futures := s.futures[f := s.futures[f].(holder := At(t, |s.threads[t].bodies|))])
  }

  // The position of f in q, |q| if it is not there.
  function IndexOf(q: seq<Fid>, f: Fid): (k: nat)
    ensures k <= |q| && (k < |q| ==> q[k] == f) && forall j :: 0 <= j < k ==> q[j] != f
  {
    if q == [] || q[0] == f then 0 else 1 + IndexOf(q[1..], f)
  }

  function Freed(s: State, q: Queue): State { s.(held := s.held - {q}) }

  // Where a thread goes when it lets go of the future that it ran.
  function AfterClaim(c: Claim): Pc {
    match c.why
    case Work => Free
    case Get(a) => Reading(a, a, Settled)
    case Help(a) => Reading(c.f, a, Helped)
  }

  function Apply(s: State, e: Event): State
    requires Enabled(s, e)
  {
    var t := e.t;
    var th := s.threads[t];
    var pc := th.pc;
    match e
    case StartWork(_, q) => WithPc(s, t, Wants(q, Work))
    case Acquire(_) => WithPc(s, t, Locked(pc.q, pc.why)).(held := s.held[pc.q := t])
    case GiveUp(_) => Freed(WithPc(s, t, Free), pc.q)
    case Take(_) =>
      var k := |s.queues[pc.q]| - 1;
      if s.queues[pc.q][k] in s.futures then TakenOff(s, t, pc.q, k, Work) else s
    case Mark(_) =>
      WithPc(s, t, Marked(pc.c)).(futures := s.futures[pc.c.f := s.futures[pc.c.f].(status := RUNNING)])
    case Begin(_) =>
      var f := s.futures[pc.c.f];
      Freed(s, pc.c.q).(futures := s.futures[pc.c.f := f.(starts := f.starts + 1)],
                        threads := s.threads[t := Thread(th.bodies + [pc.c], Free)])
    case Call(_, f) => WithPc(s, t, Wants(s.futures[f].owner, Get(f)))
    case Remove(_) =>
      var k := IndexOf(s.queues[pc.q], pc.why.asked);
      if k < |s.queues[pc.q]| then TakenOff(s, t, pc.q, k, pc.why) else s
    case Another(_) =>
      if s.queues[pc.q][0] in s.futures then TakenOff(s, t, pc.q, 0, Help(pc.why.asked)) else s
    case SeeFinished(_) => Freed(WithPc(s, t, Reading(pc.why.asked, pc.why.asked, Settled)), pc.q)
    case SeeRunning(_) => Freed(WithPc(s, t, Reading(pc.why.asked, pc.why.asked, Unsettled)), pc.q)
    case Wait(_) => Freed(WithPc(s, t, Wants(pc.q, pc.why)), pc.q)
    case Return(_, v) =>
      var c := Last(th.bodies);
      s.(futures := s.futures[c.f := s.futures[c.f].(result := Some(v))],
         threads := s.threads[t := Thread(th.bodies[..|th.bodies| - 1], Returned(c))])
    case Relock(_) => WithPc(s, t, Finishing(pc.c)).(held := s.held[pc.c.q := t])
    case Finish(_) =>
      var f := s.futures[pc.c.f].(status := FINISHED, holder := Nobody);
      WithPc(s, t, Done(pc.c)).(futures := s.futures[pc.c.f := f])
    case Release(_) => Freed(WithPc(s, t, AfterClaim(pc.c)), pc.c.q)
    case Read(_) => WithPc(s, t, Free)
    case CallSubmit(_) => WithPc(s, t, SubmitWants(QueueOf(s, t)))
    case LockSubmit(_) => WithPc(s, t, SubmitLocked(pc.q)).(held := s.held[pc.q := t])
    case Push(_, f) =>
      WithPc(s, t, Submitted(pc.q)).(futures := s.futures[f := Future(pc.q, WAITING, None, 0, Nobody)],
                                     queues := s.queues[pc.q := [f] + s.queues[pc.q]])
    case ReleaseSubmit(_) => Freed(WithPc(s, t, Free), pc.q)
  }

  // What future_get gives its caller at a Read event.
  function Got(s: State, t: Tid): Option<Value>
    requires t in s.threads && s.threads[t].pc.Reading? && s.threads[t].pc.f in s.futures
  {
    s.futures[s.threads[t].pc.f].result
  }

  // ----- what every step keeps -----

  // The lock that a thread holds.
  function Holds(pc: Pc): Option<Queue> {
    match pc
    case Locked(q, _) => Some(q)
    case Popped(c) => Some(c.q)
    case Marked(c) => Some(c.q)
    case Finishing(c) => Some(c.q)
    case Done(c) => Some(c.q)
    case SubmitLocked(q) => Some(q)
    case Submitted(q) => Some(q)
    case _ => None
  }

  // c is claimed by t in the given body of its, with f in the given condition.
  predicate Claimed(s: State, t: Tid, level: nat, c: Claim, status: Status, starts: nat, stored: bool) {
    && c.f in s.futures && c.q in s.queues && WhyTaken(c)
    && var f := s.futures[c.f];
    f.owner == c.q && f.status == status && f.starts == starts && f.result.Some? == stored && f.holder == At(t, level)
  }

  predicate WhyTaken(c: Claim) { (c.why.Get? ==> c.why.asked == c.f) && (c.why.Help? ==> c.why.asked != c.f) }

  predicate PcOk(s: State, t: Tid, level: nat, pc: Pc) {
    match pc
    case Free => true
    case Wants(q, why) => q in s.queues && WhyOk(s, q, why)
    case Locked(q, why) => q in s.queues && WhyOk(s, q, why)
    case Popped(c) => Claimed(s, t, level, c, WAITING, 0, false)
    case Marked(c) => Claimed(s, t, level, c, RUNNING, 0, false)
    case Returned(c) => Claimed(s, t, level, c, RUNNING, 1, true)
    case Finishing(c) => Claimed(s, t, level, c, RUNNING, 1, true)
    case Done(c) => c.f in s.futures && c.q in s.queues && s.futures[c.f].status == FINISHED && WhyTaken(c)
    case Reading(f, asked, via) =>
      f in s.futures && (via == Helped <==> f != asked) && (via != Unsettled ==> s.futures[f].status == FINISHED)
    case SubmitWants(q) => q in s.queues
    case SubmitLocked(q) => q in s.queues
    case Submitted(q) => q in s.queues
  }

  predicate WhyOk(s: State, q: Queue, why: Why) {
    match why
    case Work => true
    case Get(a) => a in s.futures && s.futures[a].owner == q
    case Help(_) => false
  }

  predicate ThreadOk(s: State, t: Tid) {
    && t in s.threads
    && var th := s.threads[t];
    && PcOk(s, t, |th.bodies|, th.pc)
    && (forall i :: 0 <= i < |th.bodies| ==> Claimed(s, t, i, th.bodies[i], RUNNING, 1, false))
    && (Holds(th.pc).Some? ==> Holds(th.pc).value in s.held && s.held[Holds(th.pc).value] == t)
  }

  // The claim of t in the given body of its, or after them.
  predicate ClaimedAt(s: State, t: Tid, level: nat, f: Fid, popped: bool) {
    && t in s.threads
    && var th := s.threads[t];
    if level < |th.bodies| then !popped && th.bodies[level].f == f
    else level == |th.bodies| && InHand(th.pc) == Some((popped, f))
  }

  // The future that a thread has in hand outside of its task, and whether it is not RUNNING yet.
  function InHand(pc: Pc): Option<(bool, Fid)> {
    match pc
    case Popped(c) => Some((true, c.f))
    case Marked(c) => Some((false, c.f))
    case Returned(c) => Some((false, c.f))
    case Finishing(c) => Some((false, c.f))
    case _ => None
  }

  predicate FutureOk(s: State, f: Fid) {
    && f in s.futures
    && var fu := s.futures[f];
    && fu.owner in s.queues
    && match fu.status
       case WAITING =>
         && fu.starts == 0
         && (if fu.holder == Nobody then f in s.queues[fu.owner]
            else ClaimedAt(s, fu.holder.t, fu.holder.level, f, true))
       case RUNNING => fu.holder != Nobody && ClaimedAt(s, fu.holder.t, fu.holder.level, f, false)
       case FINISHED => fu.starts == 1 && fu.result.Some? && fu.holder == Nobody
  }

  predicate QueueOk(s: State, q: Queue) {
    && q in s.queues
    && (forall k :: 0 <= k < |s.queues[q]| ==>
          var f := s.queues[q][k];
          f in s.futures && s.futures[f].owner == q && s.futures[f].status == WAITING && s.futures[f].holder == Nobody
          && s.futures[f].result == None)
    && (forall j, k :: 0 <= j < k < |s.queues[q]| ==> s.queues[q][j] != s.queues[q][k])
  }

  predicate LockOk(s: State, q: Queue) {
    q in s.held ==> s.held[q] in s.threads && Holds(s.threads[s.held[q]].pc) == Some(q)
  }

  ghost predicate Inv(s: State) {
    && (forall t {:trigger ThreadOk(s, t)} :: t in s.threads ==> ThreadOk(s, t))
    && (forall f {:trigger FutureOk(s, f)} :: f in s.futures ==> FutureOk(s, f))
    && (forall q {:trigger QueueOk(s, q)} :: q in s.queues ==> QueueOk(s, q))
    && (forall q {:trigger LockOk(s, q)} :: q in s.held ==> LockOk(s, q))
    && Global in s.queues && (forall t :: t in s.workers ==> Local(t) in s.queues)
  }

  // Steps that change no future and no queue.
  predicate OnlyMoves(e: Event) {
    !(e.Take? || e.Remove? || e.Another? || e.Mark? || e.Begin? || e.Return? || e.Finish? || e.Push?)
  }

  // The locks, after a step of t, are those that its new place has or does not have.
  ghost predicate HeldAfter(s: State, t: Tid, s': State)
    requires t in s.threads && t in s'.threads
  {
    match Holds(s'.threads[t].pc)
    case Some(q) =>
      if Holds(s.threads[t].pc) == None then q !in s.held && s'.held == s.held[q := t]
      else Holds(s.threads[t].pc) == Some(q) && s'.held == s.held
    case None =>
      s'.held == if Holds(s.threads[t].pc).Some? then s.held - {Holds(s.threads[t].pc).value} else s.held
  }

  // What such a step does to all but its own thread.
  ghost predicate Moves(s: State, t: Tid, s': State) {
    && s'.futures == s.futures && s'.queues == s.queues && s'.workers == s.workers
    && t in s.threads && s'.threads.Keys == s.threads.Keys
    && (forall u :: u in s.threads && u != t ==> s'.threads[u] == s.threads[u])
    && s'.threads[t].bodies == s.threads[t].bodies
    && InHand(s'.threads[t].pc) == InHand(s.threads[t].pc)
    && HeldAfter(s, t, s')
  }

  lemma PcMoves(s: State, t: Tid, pc: Pc, held: map<Queue, Tid>)
    requires t in s.threads && InHand(pc) == InHand(s.threads[t].pc)
    requires HeldAfter(s, t, WithPc(s, t, pc).(held := held))
    ensures Moves(s, t, WithPc(s, t, pc).(held := held))
  {
  }

  predicate GoesIn(e: Event) { e.StartWork? || e.Acquire? || e.Call? || e.CallSubmit? || e.LockSubmit? || e.Relock? }

  lemma StepMoves(s: State, e: Event)
    requires Enabled(s, e) && OnlyMoves(e)
    ensures Moves(s, e.t, Apply(s, e))
  {
    hide Moves;
    var s', t := Apply(s, e), e.t;
    assert s' == WithPc(s, t, s'.threads[t].pc).(held := s'.held) by {
      SamePcElse(s, e);
    }
    if GoesIn(e) {
      LocksIn(s, e);
    } else {
      LocksOut(s, e);
    }
    hide Enabled, Apply;
    PcMoves(s, t, s'.threads[t].pc, s'.held);
  }

  lemma SamePcElse(s: State, e: Event)
    requires Enabled(s, e) && OnlyMoves(e)
    ensures e.t in Apply(s, e).threads
    ensures
      var s' := Apply(s, e);
      s' == WithPc(s, e.t, s'.threads[e.t].pc).(held := s'.held)
  {
  }

  lemma LocksIn(s: State, e: Event)
    requires Enabled(s, e) && GoesIn(e)
    ensures e.t in s.threads && e.t in Apply(s, e).threads && HeldAfter(s, e.t, Apply(s, e))
    ensures InHand(Apply(s, e).threads[e.t].pc) == InHand(s.threads[e.t].pc)
  {
  }

  lemma LocksOut(s: State, e: Event)
    requires Enabled(s, e) && OnlyMoves(e) && !GoesIn(e)
    ensures e.t in s.threads && e.t in Apply(s, e).threads && HeldAfter(s, e.t, Apply(s, e))
    ensures InHand(Apply(s, e).threads[e.t].pc) == InHand(s.threads[e.t].pc)
  {
  }

  lemma MoveKeepsThread(s: State, e: Event, t: Tid)
    requires Inv(s) && Enabled(s, e) && OnlyMoves(e) && t in s.threads
    ensures ThreadOk(Apply(s, e), t)
  {
    if t == e.t {
      MoverOk(s, e);
    } else {
      StepMoves(s, e);
      hide Enabled, Apply;
      BystanderOk(s, e.t, Apply(s, e), t);
    }
  }

  lemma MoverOk(s: State, e: Event)
    requires Inv(s) && Enabled(s, e) && OnlyMoves(e)
    ensures ThreadOk(Apply(s, e), e.t)
  {
    StepMoves(s, e);
    assert ThreadOk(s, e.t);
    MoverPcOk(s, e);
    hide Enabled, Apply, Inv, Claimed, PcOk;
    SameClaims(s, e.t, Apply(s, e), e.t);
  }

  lemma MoverPcOk(s: State, e: Event)
    requires Inv(s) && Enabled(s, e) && OnlyMoves(e)
    ensures
      var th := Apply(s, e).threads[e.t];
      PcOk(Apply(s, e), e.t, |th.bodies|, th.pc)
  {
    assert ThreadOk(s, e.t) && (e.Call? ==> FutureOk(s, e.f));
    hide ThreadOk, FutureOk, QueueOk, LockOk;
    if GoesIn(e) {
      MovedIn(s, e);
    } else {
      MovedOut(s, e);
    }
  }

  lemma MovedIn(s: State, e: Event)
    requires Inv(s) && Enabled(s, e) && GoesIn(e) && ThreadOk(s, e.t) && (e.Call? ==> FutureOk(s, e.f))
    ensures
      var th := Apply(s, e).threads[e.t];
      PcOk(Apply(s, e), e.t, |th.bodies|, th.pc)
  {
    hide LockOk, QueueOk, Holds;
    if e.Acquire? || e.Relock? || e.LockSubmit? {
      NowLocked(s, e);
    }
  }

  lemma NowLocked(s: State, e: Event)
    requires Enabled(s, e) && (e.Acquire? || e.Relock? || e.LockSubmit?) && ThreadOk(s, e.t)
    ensures
      var th := Apply(s, e).threads[e.t];
      PcOk(Apply(s, e), e.t, |th.bodies|, th.pc)
  {
  }

  lemma MovedOut(s: State, e: Event)
    requires Inv(s) && Enabled(s, e) && OnlyMoves(e) && !GoesIn(e) && ThreadOk(s, e.t)
    ensures
      var th := Apply(s, e).threads[e.t];
      PcOk(Apply(s, e), e.t, |th.bodies|, th.pc)
  {
  }

  lemma BystanderOk(s: State, mover: Tid, s': State, t: Tid)
    requires Inv(s) && Moves(s, mover, s') && t in s.threads && t != mover
    ensures ThreadOk(s', t)
  {
    assert ThreadOk(s, t) && ThreadOk(s, mover);
    hide Claimed, PcOk, Inv;
    SameClaims(s, mover, s', t);
  }

  lemma SameClaims(s: State, mover: Tid, s': State, t: Tid)
    requires Moves(s, mover, s') && t in s.threads
    ensures
      var th := s.threads[t];
      && (PcOk(s, t, |th.bodies|, th.pc) ==> PcOk(s', t, |th.bodies|, th.pc))
      && (forall i :: 0 <= i < |th.bodies| && Claimed(s, t, i, th.bodies[i], RUNNING, 1, false) ==>
            Claimed(s', t, i, th.bodies[i], RUNNING, 1, false))
  {
  }

  lemma MoveKeepsFuture(s: State, mover: Tid, s': State, f: Fid)
    requires Inv(s) && Moves(s, mover, s') && f in s.futures
    ensures FutureOk(s', f)
  {
    assert FutureOk(s, f);
    hide Inv, ThreadOk, QueueOk, LockOk;
  }

  lemma MoveKeepsLock(s: State, mover: Tid, s': State, q: Queue)
    requires Inv(s) && Moves(s, mover, s') && q in s'.held
    ensures LockOk(s', q)
  {
    assert (q in s.held ==> LockOk(s, q)) && ThreadOk(s, mover);
    hide Inv, PcOk, Claimed;
  }

  lemma MoveKeepsQueue(s: State, mover: Tid, s': State, q: Queue)
    requires Inv(s) && Moves(s, mover, s') && q in s'.queues
    ensures QueueOk(s', q)
  {
    assert QueueOk(s, q);
    hide Inv;
  }

  lemma MoveKeeps(s: State, e: Event)
    requires Inv(s) && Enabled(s, e) && OnlyMoves(e)
    ensures Inv(Apply(s, e))
  {
    var s' := Apply(s, e);
    StepMoves(s, e);
    hide Enabled, Apply, ThreadOk, FutureOk, QueueOk, LockOk;
    forall t | t in s'.threads ensures ThreadOk(s', t) {
      MoveKeepsThread(s, e, t);
    }
    forall f | f in s'.futures ensures FutureOk(s', f) {
      MoveKeepsFuture(s, e.t, s', f);
    }
    forall q | q in s'.queues ensures QueueOk(s', q) {
      MoveKeepsQueue(s, e.t, s', q);
    }
    forall q | q in s'.held ensures LockOk(s', q) {
      MoveKeepsLock(s, e.t, s', q);
    }
    Together(s');
  }

  lemma Together(s: State)
    requires (forall t :: t in s.threads ==> ThreadOk(s, t)) && (forall f :: f in s.futures ==> FutureOk(s, f))
    requires (forall q :: q in s.queues ==> QueueOk(s, q)) && (forall q :: q in s.held ==> LockOk(s, q))
    requires Global in s.queues && forall t :: t in s.workers ==> Local(t) in s.queues
    ensures Inv(s)
  {
  }

  // A thread is not affected by a change of a future that it does not hold.
  lemma OthersUntouched(s: State, t: Tid, f: Fid, s': State, u: Tid)
    requires Touches(s, t, f, s') && InHandOf(s, t, f) && ThreadOk(s, t) && ThreadOk(s, u) && u != t
    ensures ThreadOk(s', u)
  {
    hide HeldAfter;
    OthersLocks(s, t, s', u);
    SameThread(s, s', u, f);
  }

  lemma OthersLocks(s: State, t: Tid, s': State, u: Tid)
    requires t in s.threads && t in s'.threads && HeldAfter(s, t, s') && ThreadOk(s, t) && u != t
    ensures forall q :: q in s.held && s.held[q] == u ==> q in s'.held && s'.held[q] == u
  {
    hide PcOk, Claimed;
  }

  lemma SameThread(s: State, s': State, u: Tid, f: Fid)
    requires ThreadOk(s, u) && u in s'.threads && s'.threads[u] == s.threads[u]
    requires s'.queues.Keys == s.queues.Keys && s'.futures.Keys == s.futures.Keys && f in s.futures
    requires forall g :: g in s.futures && g != f ==> s'.futures[g] == s.futures[g]
    requires s'.futures[f].owner == s.futures[f].owner
    requires (s.futures[f].holder.At? ==> s.futures[f].holder.t != u) && s.futures[f].status != FINISHED
    requires forall q :: q in s.held && s.held[q] == u ==> q in s'.held && s'.held[q] == u
    ensures ThreadOk(s', u)
  {
  }

  // ----- steps that take a future off its queue -----

  predicate CanTake(s: State, t: Tid, q: Queue, k: nat, why: Why) {
    && t in s.threads && s.threads[t].pc.Locked? && s.threads[t].pc.q == q
    && q in s.queues && k < |s.queues[q]| && s.queues[q][k] in s.futures && WhyTaken(Claim(q, s.queues[q][k], why))
  }

  lemma TakeKeeps(s: State, t: Tid, q: Queue, k: nat, why: Why)
    requires Inv(s) && CanTake(s, t, q, k, why)
    ensures Inv(TakenOff(s, t, q, k, why))
  {
    var s' := TakenOff(s, t, q, k, why);
    assert ThreadOk(s, t) && QueueOk(s, q);
    var f := s.queues[q][k];
    hide CanTake, Claimed, PcOk, ThreadOk, FutureOk, QueueOk, LockOk;
    forall u | u in s'.threads ensures ThreadOk(s', u) {
      TakeKeepsThread(s, t, q, k, why, u);
    }
    forall g | g in s'.futures ensures FutureOk(s', g) {
      TakeKeepsFuture(s, t, q, k, why, g);
    }
    forall p | p in s'.queues ensures QueueOk(s', p) {
      TakeKeepsQueue(s, t, q, k, why, p);
    }
    forall p | p in s'.held ensures LockOk(s', p) {
      TakeKeepsLock(s, t, q, k, why, p);
    }
  }

  lemma TakeKeepsThread(s: State, t: Tid, q: Queue, k: nat, why: Why, u: Tid)
    requires Inv(s) && CanTake(s, t, q, k, why) && u in s.threads
    ensures ThreadOk(TakenOff(s, t, q, k, why), u)
  {
    assert ThreadOk(s, t) && ThreadOk(s, u) && QueueOk(s, q) && FutureOk(s, s.queues[q][k]);
    hide Inv;
    if u == t {
      TakerOk(s, t, q, k, why);
    } else {
      assert TakenOff(s, t, q, k, why).queues.Keys == s.queues.Keys;
      hide ThreadOk, CanTake;
      SameThread(s, TakenOff(s, t, q, k, why), u, s.queues[q][k]);
    }
  }

  lemma TakerOk(s: State, t: Tid, q: Queue, k: nat, why: Why)
    requires CanTake(s, t, q, k, why) && ThreadOk(s, t) && QueueOk(s, q) && FutureOk(s, s.queues[q][k])
    ensures ThreadOk(TakenOff(s, t, q, k, why), t)
  {
  }

  lemma TakeKeepsFuture(s: State, t: Tid, q: Queue, k: nat, why: Why, g: Fid)
    requires Inv(s) && CanTake(s, t, q, k, why) && g in s.futures
    ensures FutureOk(TakenOff(s, t, q, k, why), g)
  {
    var f := s.queues[q][k];
    assert ThreadOk(s, t) && QueueOk(s, q) && FutureOk(s, f) && FutureOk(s, g);
    if g != f && g in s.queues[q] {
      var j :| 0 <= j < |s.queues[q]| && s.queues[q][j] == g;
      var rest := s.queues[q][..k] + s.queues[q][k + 1..];
      assert rest[if j < k then j else j - 1] == g;
    }
  }

  lemma TakeKeepsQueue(s: State, t: Tid, q: Queue, k: nat, why: Why, p: Queue)
    requires Inv(s) && CanTake(s, t, q, k, why) && p in s.queues
    ensures QueueOk(TakenOff(s, t, q, k, why), p)
  {
    assert QueueOk(s, q) && QueueOk(s, p);
    var s' := TakenOff(s, t, q, k, why);
    forall j | 0 <= j < |s'.queues[p]|
      ensures s'.queues[p][j] != s.queues[q][k]
      ensures p == q ==> s'.queues[p][j] == s.queues[q][if j < k then j else j + 1]
    {
    }
  }

  lemma TakeKeepsLock(s: State, t: Tid, q: Queue, k: nat, why: Why, p: Queue)
    requires Inv(s) && CanTake(s, t, q, k, why) && p in s.held
    ensures LockOk(TakenOff(s, t, q, k, why), p)
  {
    assert LockOk(s, p) && ThreadOk(s, t);
  }

  // With its queue's lock in hand, a WAITING future is on the queue.
  lemma WaitingIsListed(s: State, t: Tid, f: Fid)
    requires Inv(s) && t in s.threads && f in s.futures && s.futures[f].status == WAITING
    requires s.threads[t].pc.Locked? && s.threads[t].pc.q == s.futures[f].owner
    ensures s.futures[f].owner in s.queues && f in s.queues[s.futures[f].owner] && s.futures[f].holder == Nobody
  {
    assert ThreadOk(s, t);
    HandHoldsLock(s, f);
    assert FutureOk(s, f);
  }

  // Who has a WAITING future in hand has its queue's lock.
  lemma HandHoldsLock(s: State, f: Fid)
    requires Inv(s) && f in s.futures && s.futures[f].status == WAITING
    ensures s.futures[f].holder != Nobody ==>
      var t := s.futures[f].holder.t;
      && t in s.threads && s.threads[t].pc.Popped? && s.futures[f].owner in s.held && s.held[s.futures[f].owner] == t
  {
    assert FutureOk(s, f) && (s.futures[f].holder != Nobody ==> ThreadOk(s, s.futures[f].holder.t));
  }

  lemma TakeStepKeeps(s: State, e: Event)
    requires Inv(s) && Enabled(s, e) && (e.Take? || e.Remove? || e.Another?)
    ensures Inv(Apply(s, e))
  {
    var t, q := e.t, s.threads[e.t].pc.q;
    assert ThreadOk(s, t) && QueueOk(s, q);
    if e.Take? {
      assert s.queues[q][|s.queues[q]| - 1] in s.futures;
      TakeKeeps(s, t, q, |s.queues[q]| - 1, Work);
    } else if e.Remove? {
      WaitingIsListed(s, t, s.threads[t].pc.why.asked);
      TakeKeeps(s, t, q, IndexOf(s.queues[q], s.threads[t].pc.why.asked), s.threads[t].pc.why);
    } else {
      assert s.queues[q][0] in s.futures;
      TakeKeeps(s, t, q, 0, Help(s.threads[t].pc.why.asked));
    }
  }

  // ----- steps of the thread that has a future in hand -----

  predicate OnClaim(e: Event) { e.Mark? || e.Begin? || e.Return? || e.Finish? }

  // The future that such a step changes.
  function Subject(s: State, e: Event): Fid
    requires Enabled(s, e) && OnClaim(e)
  {
    if e.Return? then Last(s.threads[e.t].bodies).f else s.threads[e.t].pc.c.f
  }

  // What such a step does to all but its own thread and the future in its hand.
  ghost predicate Touches(s: State, t: Tid, f: Fid, s': State) {
    && f in s.futures && s'.futures.Keys == s.futures.Keys && s'.futures[f].owner == s.futures[f].owner
    && (forall g :: g in s.futures && g != f ==> s'.futures[g] == s.futures[g])
    && s'.queues == s.queues && s'.workers == s.workers
    && t in s.threads && s'.threads.Keys == s.threads.Keys
    && (forall u :: u in s.threads && u != t ==> s'.threads[u] == s.threads[u])
    && HeldAfter(s, t, s')
  }

  // The future is held by t.
  predicate InHandOf(s: State, t: Tid, f: Fid) {
    f in s.futures && s.futures[f].holder.At? && s.futures[f].holder.t == t && s.futures[f].status != FINISHED
  }

  lemma StepTouches(s: State, e: Event)
    requires Enabled(s, e) && OnClaim(e)
    ensures Touches(s, e.t, Subject(s, e), Apply(s, e))
  {
    if e.Mark? || e.Begin? {
      TouchesFirst(s, e);
    } else {
      TouchesThen(s, e);
    }
  }

  lemma TouchesFirst(s: State, e: Event)
    requires Enabled(s, e) && (e.Mark? || e.Begin?)
    ensures Touches(s, e.t, Subject(s, e), Apply(s, e))
  {
  }

  lemma TouchesThen(s: State, e: Event)
    requires Enabled(s, e) && (e.Return? || e.Finish?)
    ensures Touches(s, e.t, Subject(s, e), Apply(s, e))
  {
    if e.Return? {
      TouchesAtReturn(s, e);
    }
  }

  lemma TouchesAtReturn(s: State, e: Event)
    requires Enabled(s, e) && e.Return?
    ensures Touches(s, e.t, Subject(s, e), Apply(s, e))
  {
  }

  lemma SubjectHeld(s: State, e: Event)
    requires Inv(s) && Enabled(s, e) && OnClaim(e)
    ensures InHandOf(s, e.t, Subject(s, e))
  {
    assert ThreadOk(s, e.t);
  }

  lemma HandOk(s: State, e: Event)
    requires Inv(s) && Enabled(s, e) && OnClaim(e)
    ensures ThreadOk(Apply(s, e), e.t)
  {
    assert ThreadOk(s, e.t);
    hide Inv;
    if e.Mark? || e.Begin? {
      HandFirst(s, e);
    } else {
      HandThen(s, e);
    }
  }

  lemma HandFirst(s: State, e: Event)
    requires Enabled(s, e) && (e.Mark? || e.Begin?) && ThreadOk(s, e.t)
    ensures ThreadOk(Apply(s, e), e.t)
  {
  }

  lemma HandThen(s: State, e: Event)
    requires Enabled(s, e) && (e.Return? || e.Finish?) && ThreadOk(s, e.t)
    ensures ThreadOk(Apply(s, e), e.t)
  {
  }

  lemma SubjectOk(s: State, e: Event)
    requires Inv(s) && Enabled(s, e) && OnClaim(e)
    ensures FutureOk(Apply(s, e), Subject(s, e))
  {
    assert ThreadOk(s, e.t) && FutureOk(s, Subject(s, e));
    hide Inv, QueueOk, LockOk;
    if e.Mark? || e.Begin? {
      SubjectFirst(s, e);
    } else {
      SubjectThen(s, e);
    }
  }

  lemma SubjectFirst(s: State, e: Event)
    requires Enabled(s, e) && (e.Mark? || e.Begin?) && ThreadOk(s, e.t) && FutureOk(s, Subject(s, e))
    ensures FutureOk(Apply(s, e), Subject(s, e))
  {
  }

  lemma SubjectThen(s: State, e: Event)
    requires Enabled(s, e) && (e.Return? || e.Finish?) && ThreadOk(s, e.t) && FutureOk(s, Subject(s, e))
    ensures FutureOk(Apply(s, e), Subject(s, e))
  {
  }

  // The claims of t on other futures stay.
  lemma OtherClaims(s: State, e: Event, level: nat, g: Fid, popped: bool)
    requires Enabled(s, e) && OnClaim(e) && ClaimedAt(s, e.t, level, g, popped) && g != Subject(s, e)
    ensures ClaimedAt(Apply(s, e), e.t, level, g, popped)
  {
  }

  lemma OtherFutureOk(s: State, e: Event, g: Fid)
    requires Inv(s) && Enabled(s, e) && OnClaim(e) && g in s.futures && g != Subject(s, e)
    ensures FutureOk(Apply(s, e), g)
  {
    hide Enabled, Apply, Subject, ThreadOk, FutureOk, QueueOk, LockOk, Touches, ClaimedAt;
    assert FutureOk(s, g);
    StepTouches(s, e);
    forall level, popped | ClaimedAt(s, e.t, level, g, popped) ensures ClaimedAt(Apply(s, e), e.t, level, g, popped) {
      OtherClaims(s, e, level, g, popped);
    }
    FutureUntouched(s, e.t, Subject(s, e), Apply(s, e), g);
  }

  lemma FutureUntouched(s: State, t: Tid, f: Fid, s': State, g: Fid)
    requires Touches(s, t, f, s') && FutureOk(s, g) && g != f
    requires forall level, popped :: ClaimedAt(s, t, level, g, popped) ==> ClaimedAt(s', t, level, g, popped)
    ensures FutureOk(s', g)
  {
    hide HeldAfter;
  }

  lemma ClaimKeepsQueue(s: State, t: Tid, f: Fid, s': State, q: Queue)
    requires Inv(s) && Touches(s, t, f, s') && InHandOf(s, t, f) && q in s.queues
    ensures QueueOk(s', q)
  {
    assert QueueOk(s, q);
    hide Inv;
  }

  lemma ClaimKeepsLock(s: State, t: Tid, f: Fid, s': State, q: Queue)
    requires Inv(s) && Touches(s, t, f, s') && q in s'.held
    ensures LockOk(s', q)
  {
    assert (q in s.held ==> LockOk(s, q)) && ThreadOk(s, t);
    hide Inv, PcOk, Claimed;
  }

  lemma ClaimStepKeeps(s: State, e: Event)
    requires Inv(s) && Enabled(s, e) && OnClaim(e)
    ensures Inv(Apply(s, e))
  {
    var s', f := Apply(s, e), Subject(s, e);
    StepTouches(s, e);
    SubjectHeld(s, e);
    hide Enabled, Apply, Subject, ThreadOk, FutureOk, QueueOk, LockOk;
    assert ThreadOk(s, e.t);
    forall u | u in s'.threads ensures ThreadOk(s', u) {
      if u == e.t {
        HandOk(s, e);
      } else {
        assert ThreadOk(s, u);
        OthersUntouched(s, e.t, f, s', u);
      }
    }
    forall g | g in s'.futures ensures FutureOk(s', g) {
      if g == f {
        SubjectOk(s, e);
      } else {
        OtherFutureOk(s, e, g);
      }
    }
    forall q | q in s'.queues ensures QueueOk(s', q) {
      ClaimKeepsQueue(s, e.t, f, s', q);
    }
    forall q | q in s'.held ensures LockOk(s', q) {
      ClaimKeepsLock(s, e.t, f, s', q);
    }
    Together(s');
  }

  lemma PushKeeps(s: State, e: Event)
    requires Inv(s) && Enabled(s, e) && e.Push?
    ensures Inv(Apply(s, e))
  {
    var s' := Apply(s, e);
    assert ThreadOk(s, e.t);
    PushFrame(s, e);
    hide Enabled, Apply, ThreadOk, FutureOk, QueueOk, LockOk;
    forall t | t in s'.threads ensures ThreadOk(s', t) {
      PushKeepsThread(s, e, t);
    }
    forall f | f in s'.futures ensures FutureOk(s', f) {
      PushKeepsFuture(s, e, f);
    }
    forall q | q in s'.queues ensures QueueOk(s', q) {
      PushKeepsQueue(s, e, q);
    }
    forall q | q in s'.held ensures LockOk(s', q) {
      PushKeepsLock(s, e, q);
    }
    Together(s');
  }

  lemma PushKeepsLock(s: State, e: Event, q: Queue)
    requires Inv(s) && Enabled(s, e) && e.Push? && q in s.held
    ensures LockOk(Apply(s, e), q)
  {
    assert LockOk(s, q);
    PushFrame(s, e);
    hide Enabled, Apply, Inv, Holds;
  }

  lemma PushFrame(s: State, e: Event)
    requires Inv(s) && Enabled(s, e) && e.Push?
    ensures
      var s', th := Apply(s, e), s.threads[e.t];
      && s'.threads == s.threads[e.t := th.(pc := Submitted(th.pc.q))] && th.pc.q in s.queues
      && Holds(s'.threads[e.t].pc) == Holds(th.pc)
      && s'.workers == s.workers && s'.held == s.held && s'.queues.Keys == s.queues.Keys
  {
    hide Inv;
  }

  lemma PushKeepsThread(s: State, e: Event, t: Tid)
    requires Inv(s) && Enabled(s, e) && e.Push? && t in s.threads
    ensures ThreadOk(Apply(s, e), t)
  {
    assert ThreadOk(s, t);
    PushFrame(s, e);
    hide Inv, ThreadOk, Holds;
    MoreFutures(s, Apply(s, e), t);
  }

  // A thread is not affected by a new future, nor by its own going on from one submission of it.
  lemma MoreFutures(s: State, s': State, t: Tid)
    requires ThreadOk(s, t) && t in s'.threads && s'.threads[t].bodies == s.threads[t].bodies
    requires s'.threads[t].pc == s.threads[t].pc || (s'.threads[t].pc.Submitted? && s'.threads[t].pc.q in s.queues)
    requires Holds(s'.threads[t].pc) == Holds(s.threads[t].pc) && s'.held == s.held && s'.queues.Keys == s.queues.Keys
    requires forall g :: g in s.futures ==> g in s'.futures && s'.futures[g] == s.futures[g]
    ensures ThreadOk(s', t)
  {
  }

  lemma PushKeepsFuture(s: State, e: Event, f: Fid)
    requires Inv(s) && Enabled(s, e) && e.Push? && f in Apply(s, e).futures
    ensures FutureOk(Apply(s, e), f)
  {
    if f != e.f {
      assert FutureOk(s, f);
    }
  }

  lemma PushKeepsQueue(s: State, e: Event, q: Queue)
    requires Inv(s) && Enabled(s, e) && e.Push? && q in Apply(s, e).queues
    ensures QueueOk(Apply(s, e), q)
  {
    assert QueueOk(s, q);
  }

  // ----- the theorems -----

  lemma StepKeeps(s: State, e: Event)
    requires Inv(s) && Enabled(s, e)
    ensures Inv(Apply(s, e))
  {
    if OnlyMoves(e) {
      MoveKeeps(s, e);
    } else if OnClaim(e) {
      ClaimStepKeeps(s, e);
    } else if e.Push? {
      PushKeeps(s, e);
    } else {
      TakeStepKeeps(s, e);
    }
  }

  // thread_pool_new: some workers, and other threads; no futures yet.
  predicate Init(s: State) {
    && s.workers <= s.threads.Keys && s.futures == map[] && s.held == map[] && Global in s.queues
    && (forall t :: t in s.workers ==> Local(t) in s.queues)
    && (forall q :: q in s.queues ==> s.queues[q] == [])
    && forall t :: t in s.threads ==> s.threads[t] == Thread([], Free)
  }

  // Steps es lead from each state of ss to the next, in any interleaving of the threads.
  ghost predicate Run(ss: seq<State>, es: seq<Event>) {
    && |ss| == |es| + 1 && Init(ss[0])
    && forall i {:trigger StepOf(ss, es, i)} :: 0 <= i < |es| ==> StepOf(ss, es, i)
  }

  ghost predicate StepOf(ss: seq<State>, es: seq<Event>, i: nat)
    requires |ss| == |es| + 1 && i < |es|
  {
    Enabled(ss[i], es[i]) && ss[i + 1] == Apply(ss[i], es[i])
  }

  lemma {:induction false} RunKeeps(ss: seq<State>, es: seq<Event>, i: nat)
    requires Run(ss, es) && i < |ss|
    ensures Inv(ss[i])
  {
    if i > 0 {
      RunKeeps(ss, es, i - 1);
      assert StepOf(ss, es, i - 1);
      StepKeeps(ss[i - 1], es[i - 1]);
    }
  }

  // In every reachable state, a future is WAITING exactly if it is on the queue of its owner or in the hand of a thread
  // that has that queue's lock; when the lock is free, exactly if it is on the queue. It is there once, and on no
  // other.
  lemma WaitingIsQueued(ss: seq<State>, es: seq<Event>, i: nat)
    requires Run(ss, es) && i < |ss|
    ensures
      var s := ss[i];
      && (forall f :: f in s.futures && s.futures[f].owner !in s.held ==>
            (s.futures[f].status == WAITING <==> s.futures[f].owner in s.queues && f in s.queues[s.futures[f].owner]))
      && (forall f :: f in s.futures && s.futures[f].status == WAITING ==>
            s.futures[f].owner in s.queues && (f in s.queues[s.futures[f].owner] || s.futures[f].owner in s.held))
      && (forall q, k :: q in s.queues && 0 <= k < |s.queues[q]| ==>
            s.queues[q][k] in s.futures && s.futures[s.queues[q][k]].owner == q
                && s.futures[s.queues[q][k]].status == WAITING)
      && (forall q, j, k :: q in s.queues && 0 <= j < k < |s.queues[q]| ==> s.queues[q][j] != s.queues[q][k])
  {
    var s := ss[i];
    RunKeeps(ss, es, i);
    forall f | f in s.futures
      ensures s.futures[f].status == WAITING ==>
        s.futures[f].owner in s.queues && (f in s.queues[s.futures[f].owner] || s.futures[f].owner in s.held)
    {
      assert FutureOk(s, f);
      if s.futures[f].status == WAITING {
        HandHoldsLock(s, f);
      }
    }
    forall q | q in s.queues ensures QueueOk(s, q) {
    }
  }

  function Rank(st: Status): nat { match st case WAITING => 0 case RUNNING => 1 case FINISHED => 2 }

  // The state does not move back, and a result that is there does not change.
  ghost predicate Forward(fu: Future, fu': Future) {
    && fu'.owner == fu.owner && Rank(fu.status) <= Rank(fu'.status) <= Rank(fu.status) + 1 && fu.starts <= fu'.starts
    && (fu.result.Some? ==> fu'.result == fu.result)
  }

  lemma StepForward(s: State, e: Event, f: Fid)
    requires Inv(s) && Enabled(s, e) && f in s.futures
    ensures f in Apply(s, e).futures && Forward(s.futures[f], Apply(s, e).futures[f])
  {
    if OnlyMoves(e) {
      StepMoves(s, e);
      hide Enabled, Apply, Inv;
    } else if OnClaim(e) {
      StepTouches(s, e);
      if f == Subject(s, e) {
        SubjectForward(s, e);
      }
      hide Enabled, Apply, Inv, Subject, HeldAfter;
    } else {
      OthersForward(s, e, f);
    }
  }

  lemma SubjectForward(s: State, e: Event)
    requires Inv(s) && Enabled(s, e) && OnClaim(e)
    ensures
      var f := Subject(s, e);
      f in s.futures && f in Apply(s, e).futures && Forward(s.futures[f], Apply(s, e).futures[f])
  {
    assert ThreadOk(s, e.t) && FutureOk(s, Subject(s, e));
  }

  lemma OthersForward(s: State, e: Event, f: Fid)
    requires Inv(s) && Enabled(s, e) && f in s.futures && !OnlyMoves(e) && !OnClaim(e)
    ensures f in Apply(s, e).futures && Forward(s.futures[f], Apply(s, e).futures[f])
  {
  }

  // Over a run, states only go from WAITING to RUNNING to FINISHED, and results stay.
  lemma {:induction false} RunForward(ss: seq<State>, es: seq<Event>, i: nat, j: nat, f: Fid)
    requires Run(ss, es) && i <= j < |ss| && f in ss[i].futures
    ensures f in ss[j].futures && Rank(ss[i].futures[f].status) <= Rank(ss[j].futures[f].status)
    ensures ss[i].futures[f].starts <= ss[j].futures[f].starts && ss[j].futures[f].owner == ss[i].futures[f].owner
    ensures ss[i].futures[f].result.Some? ==> ss[j].futures[f].result == ss[i].futures[f].result
  {
    if i < j {
      RunForward(ss, es, i, j - 1, f);
      RunKeeps(ss, es, j - 1);
      assert StepOf(ss, es, j - 1);
      StepForward(ss[j - 1], es[j - 1], f);
    }
  }

  // Step i calls the function of f.
  ghost predicate Starts(ss: seq<State>, es: seq<Event>, i: nat, f: Fid)
    requires |ss| == |es| + 1 && i < |es|
  {
    es[i].Begin? && Enabled(ss[i], es[i]) && Subject(ss[i], es[i]) == f
  }

  // In step i the function of f returns v.
  ghost predicate Returns(ss: seq<State>, es: seq<Event>, i: nat, f: Fid, v: Value)
    requires |ss| == |es| + 1 && i < |es|
  {
    es[i].Return? && Enabled(ss[i], es[i]) && Subject(ss[i], es[i]) == f && es[i].v == v
  }

  // The function of each future is called at most once.
  lemma StartsOnce(ss: seq<State>, es: seq<Event>, i: nat, j: nat, f: Fid)
    requires Run(ss, es) && i < |es| && j < |es| && Starts(ss, es, i, f) && Starts(ss, es, j, f)
    ensures i == j
  {
    if i != j {
      var a, b := if i < j then i else j, if i < j then j else i;
      StartsFresh(ss, es, a, f);
      StartsFresh(ss, es, b, f);
      RunForward(ss, es, a + 1, b, f);
    }
  }

  lemma StartsFresh(ss: seq<State>, es: seq<Event>, i: nat, f: Fid)
    requires Run(ss, es) && i < |es| && Starts(ss, es, i, f)
    ensures f in ss[i].futures && ss[i].futures[f].starts == 0
    ensures f in ss[i + 1].futures && ss[i + 1].futures[f].starts == 1
  {
    RunKeeps(ss, es, i);
    assert StepOf(ss, es, i) && ThreadOk(ss[i], es[i].t);
  }

  // A result comes from a return of the future's own function.
  lemma {:induction false} ResultReturned(ss: seq<State>, es: seq<Event>, i: nat, f: Fid)
    requires Run(ss, es) && i < |ss| && f in ss[i].futures && ss[i].futures[f].result.Some?
    ensures exists j :: 0 <= j < i && Returns(ss, es, j, f, ss[i].futures[f].result.value)
  {
    if i > 0 {
      assert StepOf(ss, es, i - 1);
      var s, e := ss[i - 1], es[i - 1];
      if f in s.futures && s.futures[f].result.Some? {
        ResultReturned(ss, es, i - 1, f);
        RunForward(ss, es, i - 1, i, f);
      } else {
        assert Returns(ss, es, i - 1, f, ss[i].futures[f].result.value);
      }
    }
  }

  lemma ReturnsOnce(ss: seq<State>, es: seq<Event>, i: nat, j: nat, f: Fid, v: Value, w: Value)
    requires Run(ss, es) && i < |es| && j < |es| && Returns(ss, es, i, f, v) && Returns(ss, es, j, f, w)
    ensures i == j && v == w
  {
    if i != j {
      var a, b := if i < j then i else j, if i < j then j else i;
      ReturnsFresh(ss, es, a, f);
      ReturnsFresh(ss, es, b, f);
      RunForward(ss, es, a + 1, b, f);
    }
  }

  lemma ReturnsFresh(ss: seq<State>, es: seq<Event>, i: nat, f: Fid)
    requires Run(ss, es) && i < |es| && es[i].Return? && Enabled(ss[i], es[i]) && Subject(ss[i], es[i]) == f
    ensures f in ss[i].futures && ss[i].futures[f].result == None
    ensures f in ss[i + 1].futures && ss[i + 1].futures[f].result.Some?
  {
    RunKeeps(ss, es, i);
    assert StepOf(ss, es, i) && ThreadOk(ss[i], es[i].t);
  }

  // future_get on a future of the global list, on one that it finds WAITING, and on one that it finds FINISHED gives
  // what that future's function returned, in the one call of it that there was.
  lemma GetsOwnResult(ss: seq<State>, es: seq<Event>, i: nat)
    requires Run(ss, es) && i < |es| && es[i].Read? && es[i].t in ss[i].threads
    requires ss[i].threads[es[i].t].pc.Reading? && ss[i].threads[es[i].t].pc.via == Settled
    ensures
      var pc := ss[i].threads[es[i].t].pc;
      && pc.f in ss[i].futures && Got(ss[i], es[i].t).Some?
      && exists j :: 0 <= j < i && Returns(ss, es, j, pc.asked, Got(ss[i], es[i].t).value)
  {
    RunKeeps(ss, es, i);
    var s, t := ss[i], es[i].t;
    assert ThreadOk(s, t) && FutureOk(s, s.threads[t].pc.f);
    ResultReturned(ss, es, i, s.threads[t].pc.f);
  }

  // On one that it finds RUNNING it gives what the function of another future returned, if the list has one to run.
  lemma HelpGetsAnothers(ss: seq<State>, es: seq<Event>, i: nat)
    requires Run(ss, es) && i < |es| && es[i].Read? && es[i].t in ss[i].threads
    requires ss[i].threads[es[i].t].pc.Reading? && ss[i].threads[es[i].t].pc.via == Helped
    ensures
      var pc := ss[i].threads[es[i].t].pc;
      && pc.f in ss[i].futures && pc.f != pc.asked && Got(ss[i], es[i].t).Some?
      && exists j :: 0 <= j < i && Returns(ss, es, j, pc.f, Got(ss[i], es[i].t).value)
  {
    RunKeeps(ss, es, i);
    var s, t := ss[i], es[i].t;
    assert ThreadOk(s, t) && FutureOk(s, s.threads[t].pc.f);
    ResultReturned(ss, es, i, s.threads[t].pc.f);
  }

  // The future that a call of future_get was asked for, and how it comes to its result, once it has looked.
  function CallOf(c: Claim): Option<(Fid, Via)> {
    match c.why
    case Work => None
    case Get(a) => Some((a, Settled))
    case Help(a) => Some((a, Helped))
  }

  // The call of future_get that the given body of a thread is for, or the one after all its bodies.
  function CallAt(th: Thread, level: nat): Option<(Fid, Via)> {
    if level < |th.bodies| then CallOf(th.bodies[level])
    else if level > |th.bodies| then None
    else match th.pc
      case Popped(c) => CallOf(c)
      case Marked(c) => CallOf(c)
      case Returned(c) => CallOf(c)
      case Finishing(c) => CallOf(c)
      case Done(c) => CallOf(c)
      case Reading(_, asked, via) => Some((asked, via))
      case _ => None
  }

  // The steps in which future_get sees under the lock how it comes to its result.
  predicate IsLook(e: Event) { e.Remove? || e.Another? || e.SeeFinished? || e.SeeRunning? }

  // How, by the future asked for: only one of a local list that is RUNNING is not waited for.
  function ViaFor(s: State, asked: Future): Via
    requires asked.owner in s.queues
  {
    if asked.owner == Global || asked.status != RUNNING then Settled
    else if s.queues[asked.owner] != [] then Helped
    else Unsettled
  }

  lemma LookDecides(s: State, e: Event)
    requires Inv(s) && Enabled(s, e) && IsLook(e)
    ensures
      var asked := s.threads[e.t].pc.why.asked;
      && s.futures[asked].owner in s.queues && e.t in Apply(s, e).threads
      && CallAt(Apply(s, e).threads[e.t], |s.threads[e.t].bodies|) == Some((asked, ViaFor(s, s.futures[asked])))
  {
    var q := s.threads[e.t].pc.q;
    assert ThreadOk(s, e.t) && QueueOk(s, q);
    hide Inv, ThreadOk, QueueOk, Claimed;
    if e.Remove? {
      WaitingIsListed(s, e.t, s.threads[e.t].pc.why.asked);
    }
  }

  // What future_get reads is the result of the future asked for, finished, exactly if it was settled, or the function
  // happens to be through by then; and then it is what that future's function returned.
  lemma ReadsAsked(ss: seq<State>, es: seq<Event>, i: nat)
    requires Run(ss, es) && i < |es| && es[i].Read? && es[i].t in ss[i].threads && ss[i].threads[es[i].t].pc.Reading?
    ensures
      var s, pc := ss[i], ss[i].threads[es[i].t].pc;
      && pc.f in s.futures
      && (pc.f == pc.asked && s.futures[pc.f].status == FINISHED
          <==> pc.via == Settled || (pc.via == Unsettled && s.futures[pc.f].status == FINISHED))
      && (pc.f == pc.asked && s.futures[pc.f].status == FINISHED ==>
            Got(s, es[i].t).Some? && exists j :: 0 <= j < i && Returns(ss, es, j, pc.asked, Got(s, es[i].t).value))
  {
    RunKeeps(ss, es, i);
    var s, t := ss[i], es[i].t;
    assert ThreadOk(s, t) && FutureOk(s, s.threads[t].pc.f);
    hide Inv, ThreadOk, Claimed;
    if s.futures[s.threads[t].pc.f].status == FINISHED {
      ResultReturned(ss, es, i, s.threads[t].pc.f);
    }
  }

  // ----- one call of future_get, from its look to its read -----

  // The call that t makes in its body of the given number, or in none, returns in step k.
  ghost predicate ReadsIn(ss: seq<State>, es: seq<Event>, k: nat, t: Tid, level: nat)
    requires k < |es| && k < |ss|
  {
    es[k].Read? && es[k].t == t && t in ss[k].threads && |ss[k].threads[t].bodies| == level
  }

  lemma StepKeepsThreads(s: State, e: Event)
    requires Enabled(s, e)
    ensures Apply(s, e).threads.Keys == s.threads.Keys
    ensures forall t :: t in s.threads && t != e.t ==> Apply(s, e).threads[t] == s.threads[t]
  {
    if OnlyMoves(e) {
      StepMoves(s, e);
    } else if OnClaim(e) {
      StepTouches(s, e);
    } else {
      QueueStepKeepsThreads(s, e);
    }
  }

  lemma QueueStepKeepsThreads(s: State, e: Event)
    requires Enabled(s, e) && !OnlyMoves(e) && !OnClaim(e)
    ensures Apply(s, e).threads.Keys == s.threads.Keys
    ensures forall t :: t in s.threads && t != e.t ==> Apply(s, e).threads[t] == s.threads[t]
  {
  }

  // Between them, the thread may run any tasks, but it does not leave the call.
  lemma StepKeepsCall(s: State, e: Event, t: Tid, level: nat)
    requires Enabled(s, e) && t in s.threads && CallAt(s.threads[t], level).Some?
    requires !(e.Read? && e.t == t && |s.threads[t].bodies| == level)
    ensures t in Apply(s, e).threads && CallAt(Apply(s, e).threads[t], level) == CallAt(s.threads[t], level)
  {
    if e.t != t {
      StepKeepsThreads(s, e);
    } else {
      OwnStepKeepsCall(s, e, level);
    }
  }

  lemma OwnStepKeepsCall(s: State, e: Event, level: nat)
    requires Enabled(s, e) && CallAt(s.threads[e.t], level).Some?
    requires !(e.Read? && |s.threads[e.t].bodies| == level)
    ensures e.t in Apply(s, e).threads && CallAt(Apply(s, e).threads[e.t], level) == CallAt(s.threads[e.t], level)
  {
    if e.Begin? || e.Return? {
      BodyStepKeepsCall(s, e, level);
    } else {
      BodiesStay(s, e);
      if level == |s.threads[e.t].bodies| {
        ClaimStepKeepsCall(s, e);
      }
    }
  }

  lemma BodyStepKeepsCall(s: State, e: Event, level: nat)
    requires Enabled(s, e) && (e.Begin? || e.Return?)
    ensures e.t in Apply(s, e).threads && CallAt(Apply(s, e).threads[e.t], level) == CallAt(s.threads[e.t], level)
  {
  }

  lemma BodiesStay(s: State, e: Event)
    requires Enabled(s, e) && !e.Begin? && !e.Return?
    ensures e.t in Apply(s, e).threads && Apply(s, e).threads[e.t].bodies == s.threads[e.t].bodies
  {
    if OnlyMoves(e) {
      StepMoves(s, e);
    } else if e.Mark? || e.Finish? || e.Push? {
      BodiesStayElse(s, e);
    } else {
      BodiesStayOnTake(s, e);
    }
  }

  lemma BodiesStayOnTake(s: State, e: Event)
    requires Enabled(s, e) && (e.Take? || e.Remove? || e.Another?)
    ensures e.t in Apply(s, e).threads && Apply(s, e).threads[e.t].bodies == s.threads[e.t].bodies
  {
  }

  lemma BodiesStayElse(s: State, e: Event)
    requires Enabled(s, e) && (e.Mark? || e.Finish? || e.Push?)
    ensures e.t in Apply(s, e).threads && Apply(s, e).threads[e.t].bodies == s.threads[e.t].bodies
  {
  }

  lemma ClaimStepKeepsCall(s: State, e: Event)
    requires Enabled(s, e) && !e.Begin? && !e.Return? && !e.Read?
    requires CallAt(s.threads[e.t], |s.threads[e.t].bodies|).Some?
    ensures e.t in Apply(s, e).threads
    ensures var level := |s.threads[e.t].bodies|;
      CallAt(Apply(s, e).threads[e.t], level) == CallAt(s.threads[e.t], level)
  {
    assert e.Mark? || e.Relock? || e.Finish? || e.Release?;
  }

  // A call has looked when it did not before only by looking.
  lemma LookStarts(s: State, e: Event, t: Tid, level: nat)
    requires Enabled(s, e) && t in s.threads && t in Apply(s, e).threads
    requires CallAt(s.threads[t], level) == None && CallAt(Apply(s, e).threads[t], level).Some?
    ensures e.t == t && IsLook(e) && |s.threads[t].bodies| == level
  {
    if e.t != t {
      StepKeepsThreads(s, e);
    } else if e.Begin? || e.Return? {
      BodyStepKeepsCall(s, e, level);
    } else {
      BodiesStay(s, e);
      if level == |s.threads[t].bodies| && !IsLook(e) {
        OwnLook(s, e);
      }
    }
  }

  lemma OwnLook(s: State, e: Event)
    requires Enabled(s, e) && !e.Begin? && !e.Return? && !IsLook(e)
    requires CallAt(s.threads[e.t], |s.threads[e.t].bodies|) == None
    ensures e.t in Apply(s, e).threads && CallAt(Apply(s, e).threads[e.t], |s.threads[e.t].bodies|) == None
  {
    if GoesIn(e) {
      GoesInOnly(s, e);
    } else {
      NoLookElse(s, e);
    }
  }

  lemma GoesInOnly(s: State, e: Event)
    requires Enabled(s, e) && GoesIn(e) && CallAt(s.threads[e.t], |s.threads[e.t].bodies|) == None
    ensures e.t in Apply(s, e).threads && CallAt(Apply(s, e).threads[e.t], |s.threads[e.t].bodies|) == None
  {
  }

  lemma NoLookElse(s: State, e: Event)
    requires Enabled(s, e) && !GoesIn(e) && !e.Begin? && !e.Return? && !IsLook(e)
    requires CallAt(s.threads[e.t], |s.threads[e.t].bodies|) == None
    ensures e.t in Apply(s, e).threads && CallAt(Apply(s, e).threads[e.t], |s.threads[e.t].bodies|) == None
  {
  }

  lemma ReadLeaves(ss: seq<State>, es: seq<Event>, k: nat, t: Tid, level: nat)
    requires |ss| == |es| + 1 && k < |es| && StepOf(ss, es, k) && t in ss[k + 1].threads
    requires CallAt(ss[k + 1].threads[t], level).Some?
    ensures !ReadsIn(ss, es, k, t, level)
  {
  }

  lemma NoCallYet(ss: seq<State>, es: seq<Event>, t: Tid, level: nat)
    requires Run(ss, es)
    ensures t in ss[0].threads ==> CallAt(ss[0].threads[t], level) == None
  {
  }

  // In step j the call returns that looked in step i.
  ghost predicate LooksAndReads(ss: seq<State>, es: seq<Event>, i: nat, j: nat)
    requires |ss| == |es| + 1 && i < j < |es|
  {
    && IsLook(es[i]) && es[i].t in ss[i].threads && Asks(ss[i], ss[i].threads[es[i].t].pc)
    && var t, level := es[i].t, |ss[i].threads[es[i].t].bodies|;
       && ReadsIn(ss, es, j, t, level) && ss[j].threads[t].pc.Reading?
       && forall k :: i < k < j ==> !ReadsIn(ss, es, k, t, level)
  }

  lemma {:induction false} CallLasts(ss: seq<State>, es: seq<Event>, i: nat, j: nat, t: Tid, level: nat)
    requires Run(ss, es) && i <= j < |ss| && t in ss[i].threads && CallAt(ss[i].threads[t], level).Some?
    requires forall k :: i <= k < j ==> !ReadsIn(ss, es, k, t, level)
    ensures t in ss[j].threads && CallAt(ss[j].threads[t], level) == CallAt(ss[i].threads[t], level)
  {
    if i < j {
      CallLasts(ss, es, i, j - 1, t, level);
      assert StepOf(ss, es, j - 1) && !ReadsIn(ss, es, j - 1, t, level);
      StepKeepsCall(ss[j - 1], es[j - 1], t, level);
    }
  }

  // What future_get saw of the future asked for when it looked decides what it gives when it returns: the result of
  // that future, which its function returned, if it was of the global list or not RUNNING; that of another future,
  // if its list had one; and otherwise whatever is stored as its result.
  lemma CallGives(ss: seq<State>, es: seq<Event>, i: nat, j: nat)
    requires Run(ss, es) && i < j < |es| && LooksAndReads(ss, es, i, j)
    ensures
      var t := es[i].t;
      var asked, pc := ss[i].threads[t].pc.why.asked, ss[j].threads[t].pc;
      && ss[i].futures[asked].owner in ss[i].queues && pc.asked == asked && pc.f in ss[j].futures
      && match ViaFor(ss[i], ss[i].futures[asked])
         case Settled => pc.f == asked && GivesResultOf(ss, es, j, asked)
         case Helped => pc.f != asked && GivesResultOf(ss, es, j, pc.f)
         case Unsettled => pc.f == asked
  {
    hide Inv, Apply, Enabled, Claimed, ViaFor, CallAt, Returns;
    CallComesTo(ss, es, i, j);
    ReadingOk(ss, es, j);
    var t := es[i].t;
    match ss[j].threads[t].pc.via
    case Settled => GetsOwnResult(ss, es, j);
    case Helped => HelpGetsAnothers(ss, es, j);
    case Unsettled =>
  }

  // In step j a thread gets what the function of f returned.
  ghost predicate GivesResultOf(ss: seq<State>, es: seq<Event>, j: nat, f: Fid)
    requires |ss| == |es| + 1 && j < |es|
  {
    && es[j].t in ss[j].threads && ss[j].threads[es[j].t].pc.Reading? && ss[j].threads[es[j].t].pc.f in ss[j].futures
    && Got(ss[j], es[j].t).Some? && exists k :: 0 <= k < j && Returns(ss, es, k, f, Got(ss[j], es[j].t).value)
  }

  lemma CallComesTo(ss: seq<State>, es: seq<Event>, i: nat, j: nat)
    requires Run(ss, es) && i < j < |es| && LooksAndReads(ss, es, i, j)
    ensures
      var t := es[i].t;
      var asked, pc := ss[i].threads[t].pc.why.asked, ss[j].threads[t].pc;
      && ss[i].futures[asked].owner in ss[i].queues && pc.asked == asked
      && pc.via == ViaFor(ss[i], ss[i].futures[asked])
  {
    hide Inv, Apply, Enabled, ViaFor;
    var t, level := es[i].t, |ss[i].threads[es[i].t].bodies|;
    RunKeeps(ss, es, i);
    assert StepOf(ss, es, i);
    LookDecides(ss[i], es[i]);
    CallLasts(ss, es, i + 1, j, t, level);
  }

  lemma ReadingOk(ss: seq<State>, es: seq<Event>, j: nat)
    requires Run(ss, es) && j < |es| && es[j].Read?
    ensures
      && es[j].t in ss[j].threads && ss[j].threads[es[j].t].pc.Reading?
      && PcOk(ss[j], es[j].t, |ss[j].threads[es[j].t].bodies|, ss[j].threads[es[j].t].pc)
  {
    RunKeeps(ss, es, j);
    assert StepOf(ss, es, j) && ThreadOk(ss[j], es[j].t);
  }

  // And each return is that of a call that looked.
  lemma {:induction false} LookBefore(ss: seq<State>, es: seq<Event>, j: nat, t: Tid, level: nat) returns (i: nat)
    requires Run(ss, es) && j < |ss| && t in ss[j].threads && CallAt(ss[j].threads[t], level).Some?
    ensures i < j && IsLook(es[i]) && StepOf(ss, es, i) && es[i].t == t && t in ss[i].threads
    ensures |ss[i].threads[t].bodies| == level
    ensures forall k :: i < k < j ==> !ReadsIn(ss, es, k, t, level)
  {
    hide Apply, Enabled, CallAt, IsLook, Init, ReadsIn;
    NoCallYet(ss, es, t, level);
    assert j > 0 && StepOf(ss, es, j - 1);
    var s, e := ss[j - 1], es[j - 1];
    StepKeepsThreads(s, e);
    if CallAt(s.threads[t], level) == None {
      LookStarts(s, e, t, level);
      i := j - 1;
    } else {
      ReadLeaves(ss, es, j - 1, t, level);
      i := LookBefore(ss, es, j - 1, t, level);
    }
  }

  lemma ReadFollowsLook(ss: seq<State>, es: seq<Event>, j: nat) returns (i: nat)
    requires Run(ss, es) && j < |es| && es[j].Read?
    ensures i < j && LooksAndReads(ss, es, i, j)
  {
    assert StepOf(ss, es, j);
    var t := es[j].t;
    i := LookBefore(ss, es, j, t, |ss[j].threads[t].bodies|);
  }
}
