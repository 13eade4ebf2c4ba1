/** Runs of threadlab/tests/threadpool.c in which future_get does not wait for the future that it is asked for. */
module ThreadPoolRuns {
  import opened Options
  import opened ThreadPool

  // s with thread t as th, and the rest as given.
  function Put(s: State, t: Tid, th: Thread, held: map<Queue, Tid>, futures: map<Fid, Future>,
               queues: map<Queue, seq<Fid>>): State
  {
    State(s.workers, futures, queues, held, s.threads[t := th])
  }

  predicate Does(p: State, e: Event, p': State) { Enabled(p, e) && Apply(p, e) == p' }

  // The steps es lead from s to s'.
  ghost predicate Steps(s: State, es: seq<Event>, s': State)
    decreases |es|
  {
    if es == [] then s' == s else Enabled(s, es[0]) && Steps(Apply(s, es[0]), es[1..], s')
  }

  lemma {:induction false} More(s: State, es: seq<Event>, p: State, e: Event, p': State) returns (es': seq<Event>)
    requires Steps(s, es, p) && Does(p, e, p')
    ensures es' == es + [e] && Steps(s, es', p')
    decreases |es|
  {
    hide Enabled, Apply;
    es' := es + [e];
    if es == [] {
      assert es'[1..] == [];
      assert Steps(p', [], p');
    } else {
      var rest := More(Apply(s, es[0]), es[1..], p, e, p');
      assert es'[1..] == rest;
    }
  }

  lemma {:induction false} Joined(s: State, es: seq<Event>, p: State, es': seq<Event>, p': State)
    requires Steps(s, es, p) && Steps(p, es', p')
    ensures Steps(s, es + es', p')
    decreases |es|
  {
    hide Enabled, Apply;
    if es == [] {
      assert es + es' == es';
    } else {
      Joined(Apply(s, es[0]), es[1..], p, es', p');
      assert (es + es')[1..] == es[1..] + es';
    }
  }

  // The states of the run that such steps are.
  function States(s: State, es: seq<Event>): (ss: seq<State>)
    ensures |ss| == |es| + 1 && ss[0] == s
    decreases |es|
  {
    [s] + if es == [] then [] else States(if Enabled(s, es[0]) then Apply(s, es[0]) else s, es[1..])
  }

  lemma {:induction false} AreRun(s: State, es: seq<Event>, p: State)
    requires Steps(s, es, p)
    ensures forall i {:trigger StepOf(States(s, es), es, i)} :: 0 <= i < |es| ==> StepOf(States(s, es), es, i)
    ensures Last(States(s, es)) == p
    decreases |es|
  {
    hide Enabled, Apply;
    if es != [] {
      var ss, later := States(s, es), States(Apply(s, es[0]), es[1..]);
      AreRun(Apply(s, es[0]), es[1..], p);
      assert ss == [s] + later;
      forall i | 0 <= i < |es| ensures StepOf(ss, es, i) {
        if i > 0 {
          assert StepOf(later, es[1..], i - 1);
        }
      }
    }
  }

  lemma {:induction false} StateThen(s: State, es: seq<Event>, p: State, es': seq<Event>)
    requires Steps(s, es, p)
    ensures States(s, es + es')[|es|] == p
    decreases |es|
  {
    hide Enabled, Apply;
    if es == [] {
      assert es + es' == es';
    } else {
      StateThen(Apply(s, es[0]), es[1..], p, es');
      assert (es + es')[1..] == es[1..] + es';
    }
  }

  // ----- one step of thread t, each -----

  lemma Starting(s: State, t: Tid, b: seq<Claim>, held: map<Queue, Tid>, futures: map<Fid, Future>,
                 queues: map<Queue, seq<Fid>>,
                 q: Queue)
    requires b == [] && t in s.workers && q in queues
    ensures Does(Put(s, t, Thread(b, Free), held, futures, queues), StartWork(t, q),
                 Put(s, t, Thread(b, Wants(q, Work)), held, futures, queues))
  {
  }

  lemma Locking(s: State, t: Tid, b: seq<Claim>, held: map<Queue, Tid>, futures: map<Fid, Future>,
                queues: map<Queue, seq<Fid>>,
                q: Queue, why: Why)
    requires q !in held
    ensures Does(Put(s, t, Thread(b, Wants(q, why)), held, futures, queues), Acquire(t),
                 Put(s, t, Thread(b, Locked(q, why)), held[q := t], futures, queues))
  {
  }

  lemma Taking(s: State, t: Tid, b: seq<Claim>, held: map<Queue, Tid>, futures: map<Fid, Future>,
               queues: map<Queue, seq<Fid>>,
               q: Queue, f: Fid)
    requires q in queues && queues[q] != [] && Last(queues[q]) == f && f in futures
    ensures Does(Put(s, t, Thread(b, Locked(q, Work)), held, futures, queues), Take(t),
                 Put(s, t, Thread(b, Popped(Claim(q, f, Work))), held, futures[f := futures[f].(holder := At(t, |b|))],
                     queues[q := queues[q][..|queues[q]| - 1]]))
  {
    WithoutEnd(queues[q]);
  }

  lemma Marking(s: State, t: Tid, b: seq<Claim>, held: map<Queue, Tid>, futures: map<Fid, Future>,
                queues: map<Queue, seq<Fid>>,
                c: Claim, fu: Future)
    ensures Does(Put(s, t, Thread(b, Popped(c)), held, futures[c.f := fu], queues), Mark(t),
                 Put(s, t, Thread(b, Marked(c)), held, futures[c.f := fu.(status := RUNNING)], queues))
  {
    assert futures[c.f := fu][c.f := fu.(status := RUNNING)] == futures[c.f := fu.(status := RUNNING)];
  }

  lemma Beginning(s: State, t: Tid, b: seq<Claim>, held: map<Queue, Tid>, futures: map<Fid, Future>,
                  queues: map<Queue, seq<Fid>>,
                  c: Claim, fu: Future)
    ensures Does(Put(s, t, Thread(b, Marked(c)), held, futures[c.f := fu], queues), Begin(t),
                 Put(s, t, Thread(b + [c], Free), held - {c.q}, futures[c.f := fu.(starts := fu.starts + 1)], queues))
  {
    assert futures[c.f := fu][c.f := fu.(starts := fu.starts + 1)] == futures[c.f := fu.(starts := fu.starts + 1)];
  }

  lemma Calling(s: State, t: Tid, b: seq<Claim>, held: map<Queue, Tid>, futures: map<Fid, Future>,
                queues: map<Queue, seq<Fid>>,
                f: Fid)
    requires (b != [] || t !in s.workers) && f in futures
    ensures Does(Put(s, t, Thread(b, Free), held, futures, queues), Call(t, f),
                 Put(s, t, Thread(b, Wants(futures[f].owner, Get(f))), held, futures, queues))
  {
  }

  lemma TakingAnother(s: State, t: Tid, b: seq<Claim>, held: map<Queue, Tid>, futures: map<Fid, Future>,
                      queues: map<Queue, seq<Fid>>,
                      q: Queue, a: Fid, g: Fid)
    requires q != Global && q in queues && queues[q] != [] && queues[q][0] == g && g in futures
    requires a in futures && futures[a].status == RUNNING
    ensures Does(Put(s, t, Thread(b, Locked(q, Get(a))), held, futures, queues), Another(t),
                 Put(s, t, Thread(b, Popped(Claim(q, g, Help(a)))), held,
                     futures[g := futures[g].(holder := At(t, |b|))], queues[q := queues[q][1..]]))
  {
    WithoutEnd(queues[q]);
  }

  lemma SeeingRunning(s: State, t: Tid, b: seq<Claim>, held: map<Queue, Tid>, futures: map<Fid, Future>,
                      queues: map<Queue, seq<Fid>>,
                      q: Queue, a: Fid)
    requires q != Global && q in queues && queues[q] == [] && a in futures && futures[a].status == RUNNING
    ensures Does(Put(s, t, Thread(b, Locked(q, Get(a))), held, futures, queues), SeeRunning(t),
                 Put(s, t, Thread(b, Reading(a, a, Unsettled)), held - {q}, futures, queues))
  {
  }

  lemma Returning(s: State, t: Tid, b: seq<Claim>, held: map<Queue, Tid>, futures: map<Fid, Future>,
                  queues: map<Queue, seq<Fid>>,
                  c: Claim, v: Value, fu: Future)
    ensures Does(Put(s, t, Thread(b + [c], Free), held, futures[c.f := fu], queues), Return(t, v),
                 Put(s, t, Thread(b, Returned(c)), held, futures[c.f := fu.(result := Some(v))], queues))
  {
    assert futures[c.f := fu][c.f := fu.(result := Some(v))] == futures[c.f := fu.(result := Some(v))];
    assert (b + [c])[..|b|] == b;
  }

  lemma Relocking(s: State, t: Tid, b: seq<Claim>, held: map<Queue, Tid>, futures: map<Fid, Future>,
                  queues: map<Queue, seq<Fid>>,
                  c: Claim)
    requires c.q !in held
    ensures Does(Put(s, t, Thread(b, Returned(c)), held, futures, queues), Relock(t),
                 Put(s, t, Thread(b, Finishing(c)), held[c.q := t], futures, queues))
  {
  }

  lemma EndingClaim(s: State, t: Tid, b: seq<Claim>, held: map<Queue, Tid>, futures: map<Fid, Future>,
                    queues: map<Queue, seq<Fid>>,
                    c: Claim, fu: Future)
    ensures Does(Put(s, t, Thread(b, Finishing(c)), held, futures[c.f := fu], queues), Finish(t),
                 Put(s, t, Thread(b, Done(c)), held, futures[c.f := fu.(status := FINISHED, holder := Nobody)], queues))
  {
    assert futures[c.f := fu][c.f := fu.(status := FINISHED, holder := Nobody)] ==
        futures[c.f := fu.(status := FINISHED, holder := Nobody)];
  }

  lemma Releasing(s: State, t: Tid, b: seq<Claim>, held: map<Queue, Tid>, futures: map<Fid, Future>,
                  queues: map<Queue, seq<Fid>>,
                  c: Claim)
    ensures Does(Put(s, t, Thread(b, Done(c)), held, futures, queues), Release(t),
                 Put(s, t, Thread(b, AfterClaim(c)), held - {c.q}, futures, queues))
  {
  }

  lemma ReadingResult(s: State, t: Tid, b: seq<Claim>, held: map<Queue, Tid>, futures: map<Fid, Future>,
                      queues: map<Queue, seq<Fid>>,
                      f: Fid, a: Fid, via: Via)
    ensures Does(Put(s, t, Thread(b, Reading(f, a, via)), held, futures, queues), Read(t),
                 Put(s, t, Thread(b, Free), held, futures, queues))
  {
  }

  lemma CallingSubmit(s: State, t: Tid, b: seq<Claim>, held: map<Queue, Tid>, futures: map<Fid, Future>,
                      queues: map<Queue, seq<Fid>>)
    requires b != [] || t !in s.workers
    ensures Does(Put(s, t, Thread(b, Free), held, futures, queues), CallSubmit(t),
                 Put(s, t, Thread(b, SubmitWants(QueueOf(s, t))), held, futures, queues))
  {
  }

  lemma LockingSubmit(s: State, t: Tid, b: seq<Claim>, held: map<Queue, Tid>, futures: map<Fid, Future>,
                      queues: map<Queue, seq<Fid>>,
                      q: Queue)
    requires q !in held
    ensures Does(Put(s, t, Thread(b, SubmitWants(q)), held, futures, queues), LockSubmit(t),
                 Put(s, t, Thread(b, SubmitLocked(q)), held[q := t], futures, queues))
  {
  }

  lemma Pushing(s: State, t: Tid, b: seq<Claim>, held: map<Queue, Tid>, futures: map<Fid, Future>,
                queues: map<Queue, seq<Fid>>,
                q: Queue, f: Fid)
    requires q in queues && f !in futures
    ensures Does(Put(s, t, Thread(b, SubmitLocked(q)), held, futures, queues), Push(t, f),
                 Put(s, t, Thread(b, Submitted(q)), held, futures[f := Future(q, WAITING, None, 0, Nobody)],
                     queues[q := [f] + queues[q]]))
  {
  }

  lemma ReleasingSubmit(s: State, t: Tid, b: seq<Claim>, held: map<Queue, Tid>, futures: map<Fid, Future>,
                        queues: map<Queue, seq<Fid>>,
                        q: Queue)
    ensures Does(Put(s, t, Thread(b, Submitted(q)), held, futures, queues), ReleaseSubmit(t),
                 Put(s, t, Thread(b, Free), held - {q}, futures, queues))
  {
  }

  lemma WithoutEnd(q: seq<Fid>)
    requires q != []
    ensures q[..|q| - 1] + q[|q| - 1 + 1..] == q[..|q| - 1]
    ensures q[..0] + q[0 + 1..] == q[1..]
  {
  }

  // ----- whole calls -----

  // Where thread t is, and how its locking a queue and unlocking it leaves the locks.
  lemma Start(s: State, t: Tid, q: Queue)
    requires t in s.threads && q !in s.held
    ensures s == Put(s, t, s.threads[t], s.held, s.futures, s.queues) && s.held[q := t] - {q} == s.held
  {
    assert s.threads[t := s.threads[t]] == s.threads;
  }

  // t submits a new future f.
  lemma Submits(s: State, t: Tid, f: Fid) returns (es: seq<Event>)
    requires t in s.threads && MayCall(s, t) && f !in s.futures
    requires QueueOf(s, t) in s.queues && QueueOf(s, t) !in s.held
    ensures Steps(s, es, Submitting(s, t, f))
  {
    var q := QueueOf(s, t);
    hide Does, QueueOf;
    Start(s, t, q);
    var b, h := s.threads[t].bodies, s.held[q := t];
    var fs, qs := s.futures[f := Future(q, WAITING, None, 0, Nobody)], s.queues[q := [f] + s.queues[q]];
    var s1 := Put(s, t, Thread(b, SubmitWants(q)), s.held, s.futures, s.queues);
    var s2 := Put(s, t, Thread(b, SubmitLocked(q)), h, s.futures, s.queues);
    var s3 := Put(s, t, Thread(b, Submitted(q)), h, fs, qs);
    var s4 := Put(s, t, Thread(b, Free), h - {q}, fs, qs);
    assert s.threads[t] == Thread(b, Free);
    CallingSubmit(s, t, b, s.held, s.futures, s.queues);
    LockingSubmit(s, t, b, s.held, s.futures, s.queues, q);
    Pushing(s, t, b, h, s.futures, s.queues, q, f);
    ReleasingSubmit(s, t, b, h, fs, qs, q);
    hide Put;
    es := More(s, [], s, CallSubmit(t), s1);
    es := More(s, es, s1, LockSubmit(t), s2);
    es := More(s, es, s2, Push(t, f), s3);
    es := More(s, es, s3, ReleaseSubmit(t), s4);
  }

  function Submitting(s: State, t: Tid, f: Fid): State
    requires t in s.threads && QueueOf(s, t) in s.queues
  {
    var q := QueueOf(s, t);
    Put(s, t, s.threads[t], s.held, s.futures[f := Future(q, WAITING, None, 0, Nobody)],
        s.queues[q := [f] + s.queues[q]])
  }

  function Working(s: State, t: Tid, q: Queue): State
    requires t in s.threads && q in s.queues && s.queues[q] != [] && Last(s.queues[q]) in s.futures
  {
    var f := Last(s.queues[q]);
    var fu := s.futures[f].(holder := At(t, 0));
    Put(s, t, Thread([] + [Claim(q, f, Work)], Free), s.held,
        s.futures[f := fu.(status := RUNNING, starts := fu.starts + 1)],
            s.queues[q := s.queues[q][..|s.queues[q]| - 1]])
  }

  // Worker t finds the future at the back of list q and starts it.
  lemma Works(s: State, t: Tid, q: Queue) returns (es: seq<Event>)
    requires t in s.threads && t in s.workers && s.threads[t] == Thread([], Free)
    requires q in s.queues && q !in s.held && s.queues[q] != [] && Last(s.queues[q]) in s.futures
    ensures Steps(s, es, Working(s, t, q))
  {
    hide Does, Put;
    Start(s, t, q);
    var f, h := Last(s.queues[q]), s.held[q := t];
    var c, fu := Claim(q, f, Work), s.futures[f].(holder := At(t, 0));
    var qs := s.queues[q := s.queues[q][..|s.queues[q]| - 1]];
    var s1 := Put(s, t, Thread([], Wants(q, Work)), s.held, s.futures, s.queues);
    var s2 := Put(s, t, Thread([], Locked(q, Work)), h, s.futures, s.queues);
    var s3 := Put(s, t, Thread([], Popped(c)), h, s.futures[f := fu], qs);
    var s4 := Begun(s, t, [], h, s.futures, qs, c, fu);
    Starting(s, t, [], s.held, s.futures, s.queues, q);
    Locking(s, t, [], s.held, s.futures, s.queues, q, Work);
    Taking(s, t, [], h, s.futures, s.queues, q, f);
    var begin := Begins(s, t, [], h, s.futures, qs, c, fu);
    assert s4 == Working(s, t, q);
    hide Working, Begun;
    es := More(s, [], s, StartWork(t, q), s1);
    es := More(s, es, s1, Acquire(t), s2);
    es := More(s, es, s2, Take(t), s3);
    Joined(s, es, s3, begin, s4);
    es := es + begin;
  }

  function Begun(s: State, t: Tid, b: seq<Claim>, held: map<Queue, Tid>, futures: map<Fid, Future>,
                 queues: map<Queue, seq<Fid>>, c: Claim, fu: Future): State
  {
    Put(s, t, Thread(b + [c], Free), held - {c.q}, futures[c.f := fu.(status := RUNNING, starts := fu.starts + 1)],
        queues)
  }

  // t marks the future that it has in hand, and begins to run it.
  lemma Begins(s: State, t: Tid, b: seq<Claim>, held: map<Queue, Tid>, futures: map<Fid, Future>,
               queues: map<Queue, seq<Fid>>, c: Claim, fu: Future) returns (es: seq<Event>)
    ensures
      Steps(Put(s, t, Thread(b, Popped(c)), held, futures[c.f := fu], queues), es,
            Begun(s, t, b, held, futures, queues, c, fu))
  {
    hide Does;
    var s1 := Put(s, t, Thread(b, Popped(c)), held, futures[c.f := fu], queues);
    var s2 := Put(s, t, Thread(b, Marked(c)), held, futures[c.f := fu.(status := RUNNING)], queues);
    Marking(s, t, b, held, futures, queues, c, fu);
    Beginning(s, t, b, held, futures, queues, c, fu.(status := RUNNING));
    es := More(s1, [], s1, Mark(t), s2);
    es := More(s1, es, s2, Begin(t), Begun(s, t, b, held, futures, queues, c, fu));
  }

  // The task of t that runs c returns v, and t lets go of the future.
  lemma Ends(s: State, t: Tid, b: seq<Claim>, held: map<Queue, Tid>, futures: map<Fid, Future>,
             queues: map<Queue, seq<Fid>>, c: Claim, fu: Future, v: Value) returns (es: seq<Event>)
    requires c.q !in held
    ensures
      var ended := fu.(result := Some(v), status := FINISHED, holder := Nobody);
      Steps(Put(s, t, Thread(b + [c], Free), held, futures[c.f := fu], queues), es,
            Put(s, t, Thread(b, AfterClaim(c)), held, futures[c.f := ended], queues))
  {
    hide Does;
    var stored, ended := fu.(result := Some(v)), fu.(result := Some(v), status := FINISHED, holder := Nobody);
    var h := held[c.q := t];
    var s1 := Put(s, t, Thread(b + [c], Free), held, futures[c.f := fu], queues);
    var s2 := Put(s, t, Thread(b, Returned(c)), held, futures[c.f := stored], queues);
    var s3 := Put(s, t, Thread(b, Finishing(c)), h, futures[c.f := stored], queues);
    var s4 := Put(s, t, Thread(b, Done(c)), h, futures[c.f := ended], queues);
    var s5 := Put(s, t, Thread(b, AfterClaim(c)), h - {c.q}, futures[c.f := ended], queues);
    Returning(s, t, b, held, futures, queues, c, v, fu);
    Relocking(s, t, b, held, futures[c.f := stored], queues, c);
    EndingClaim(s, t, b, h, futures, queues, c, stored);
    Releasing(s, t, b, h, futures[c.f := ended], queues, c);
    assert h - {c.q} == held;
    hide Put, AfterClaim;
    es := More(s1, [], s1, Return(t, v), s2);
    es := More(s1, es, s2, Relock(t), s3);
    es := More(s1, es, s3, Finish(t), s4);
    es := More(s1, es, s4, Release(t), s5);
  }

  function Looking(s: State, t: Tid, a: Fid): State
    requires t in s.threads && a in s.futures
  {
    var q := s.futures[a].owner;
    Put(s, t, Thread(s.threads[t].bodies, Locked(q, Get(a))), s.held[q := t], s.futures, s.queues)
  }

  // t calls future_get on a and gets the lock of its list.
  lemma Looks(s: State, t: Tid, a: Fid) returns (es: seq<Event>)
    requires t in s.threads && MayCall(s, t) && a in s.futures && s.futures[a].owner !in s.held
    ensures Steps(s, es, Looking(s, t, a))
  {
    hide Does;
    var q, b := s.futures[a].owner, s.threads[t].bodies;
    Start(s, t, q);
    assert s.threads[t] == Thread(b, Free);
    var s1 := Put(s, t, Thread(b, Wants(q, Get(a))), s.held, s.futures, s.queues);
    Calling(s, t, b, s.held, s.futures, s.queues, a);
    Locking(s, t, b, s.held, s.futures, s.queues, q, Get(a));
    es := More(s, [], s, Call(t, a), s1);
    es := More(s, es, s1, Acquire(t), Looking(s, t, a));
  }

  predicate MayHelp(s: State, t: Tid, a: Fid, g: Fid) {
    && t in s.threads && MayCall(s, t) && a in s.futures && g in s.futures && a != g && s.futures[a].status == RUNNING
    && var q := s.futures[a].owner;
    && q != Global && s.futures[g].owner == q && q in s.queues && q !in s.held && s.queues[q] != []
       && s.queues[q][0] == g
  }

  function Helping(s: State, t: Tid, pc: Pc, g: Fid, v: Value): State
    requires t in s.threads && g in s.futures && s.futures[g].owner in s.queues && s.queues[s.futures[g].owner] != []
  {
    var fu := s.futures[g];
    Put(s, t, Thread(s.threads[t].bodies, pc), s.held,
        s.futures[g := fu.(status := FINISHED, starts := fu.starts + 1, result := Some(v), holder := Nobody)],
        s.queues[fu.owner := s.queues[fu.owner][1..]])
  }

  // t calls future_get on a, which is RUNNING, and comes to read the result v of the future at the front of its list.
  lemma Helps(s: State, t: Tid, a: Fid, g: Fid, v: Value) returns (es: seq<Event>)
    requires MayHelp(s, t, a, g)
    ensures Steps(s, es, Helping(s, t, Reading(g, a, Helped), g, v))
  {
    hide Does, Steps, Put;
    var q, b := s.futures[a].owner, s.threads[t].bodies;
    var c, fu := Claim(q, g, Help(a)), s.futures[g].(holder := At(t, |b|));
    var h, qs := s.held[q := t], s.queues[q := s.queues[q][1..]];
    var s1 := Put(s, t, Thread(b, Popped(c)), h, s.futures[g := fu], qs);
    var look := Looks(s, t, a);
    TakingAnother(s, t, b, h, s.futures, s.queues, q, a, g);
    var run := Runs(s, t, b, s.held, s.futures, qs, c, fu, v);
    es := More(s, look, Looking(s, t, a), Another(t), s1);
    Joined(s, es, s1, run, Helping(s, t, Reading(g, a, Helped), g, v));
    es := es + run;
  }

  // t runs the future that it has in hand.
  lemma Runs(s: State, t: Tid, b: seq<Claim>, held: map<Queue, Tid>, futures: map<Fid, Future>,
             queues: map<Queue, seq<Fid>>, c: Claim, fu: Future, v: Value) returns (es: seq<Event>)
    requires c.q !in held
    ensures
      var ended := fu.(status := FINISHED, starts := fu.starts + 1, result := Some(v), holder := Nobody);
      Steps(Put(s, t, Thread(b, Popped(c)), held[c.q := t], futures[c.f := fu], queues), es,
            Put(s, t, Thread(b, AfterClaim(c)), held, futures[c.f := ended], queues))
  {
    hide Steps, Put, AfterClaim;
    var begun := fu.(status := RUNNING, starts := fu.starts + 1);
    var ended := fu.(status := FINISHED, starts := fu.starts + 1, result := Some(v), holder := Nobody);
    es := Begins(s, t, b, held[c.q := t], futures, queues, c, fu);
    assert held[c.q := t] - {c.q} == held;
    var end := Ends(s, t, b, held, futures, queues, c, begun, v);
    var s1 := Put(s, t, Thread(b, Popped(c)), held[c.q := t], futures[c.f := fu], queues);
    var s2 := Put(s, t, Thread(b + [c], Free), held, futures[c.f := begun], queues);
    var s3 := Put(s, t, Thread(b, AfterClaim(c)), held, futures[c.f := ended], queues);
    Joined(s1, es, s2, end, s3);
    es := es + end;
  }

  function Unsettling(s: State, t: Tid, a: Fid): State
    requires t in s.threads
  {
    Put(s, t, Thread(s.threads[t].bodies, Reading(a, a, Unsettled)), s.held, s.futures, s.queues)
  }

  // t calls future_get on a, which is RUNNING, with no other on its list, and comes to read what is there for a result.
  lemma Unsettles(s: State, t: Tid, a: Fid) returns (es: seq<Event>)
    requires t in s.threads && MayCall(s, t) && a in s.futures && s.futures[a].status == RUNNING
    requires
      var q := s.futures[a].owner;
      q != Global && q in s.queues && q !in s.held && s.queues[q] == []
    ensures Steps(s, es, Unsettling(s, t, a))
  {
    hide Does;
    var q := s.futures[a].owner;
    es := Looks(s, t, a);
    Start(s, t, q);
    SeeingRunning(s, t, s.threads[t].bodies, s.held[q := t], s.futures, s.queues, q, a);
    es := More(s, es, Looking(s, t, a), SeeRunning(t), Unsettling(s, t, a));
  }

  // At step i thread t reads for future_get(a), which is still RUNNING and has no result.
  ghost predicate ReadsTooEarly(ss: seq<State>, es: seq<Event>, i: nat, t: Tid, a: Fid, via: Via) {
    && |ss| == |es| + 1 && i < |es| && es[i] == Read(t) && t in ss[i].threads
    && ss[i].threads[t].pc.Reading? && ss[i].threads[t].pc.asked == a && ss[i].threads[t].pc.via == via
    && a in ss[i].futures && ss[i].futures[a].status == RUNNING && ss[i].futures[a].result == None
    && ss[i].threads[t].pc.f in ss[i].futures
  }

  // Both happen, in one run of two workers: worker 0 submits tasks 1 and 2 from its task, worker 1 steals task 1, and
  // worker 0 calls future_get on it twice.
  lemma JoinsTooEarly(v: Value) returns (ss: seq<State>, es: seq<Event>, i: nat, j: nat)
    ensures Run(ss, es)
    ensures ReadsTooEarly(ss, es, i, 0, 1, Helped) && Got(ss[i], 0) == Some(v)
    ensures ReadsTooEarly(ss, es, j, 0, 1, Unsettled) && Got(ss[j], 0) == None
  {
    hide Steps, Does, Put, Helping, Unsettling, Init;
    var s0, steal, s1 := Stolen();
    var help := Helps(s1, 0, 1, 2, v);
    var r1, s2 := HelpedRead(s1, 0, 1, 2, v);
    var unsettle := Unsettles(s2, 0, 1);
    var r2, s3 := UnsettledRead(s2, 0, 1);
    hide MayHelp, MayCall, States;
    ss, es := TwoReads(s0, steal, s1, help, r1, s2, unsettle, r2, s3, Read(0));
    i, j := |steal + help|, |steal + help| + 1 + |unsettle|;
  }

  // What t reads, and how it goes on.
  lemma HelpedRead(s: State, t: Tid, a: Fid, g: Fid, v: Value) returns (r: State, s': State)
    requires MayHelp(s, t, a, g)
    ensures r == Helping(s, t, Reading(g, a, Helped), g, v) && Does(r, Read(t), s')
    ensures t in r.threads && r.threads[t].pc == Reading(g, a, Helped) && g in r.futures
    ensures r.futures[g].result == Some(v)
    ensures a in r.futures && r.futures[a] == s.futures[a]
    ensures t in s'.threads && MayCall(s', t) && a in s'.futures && s'.futures[a] == s.futures[a] && s'.held == s.held
    ensures
      var q := s.futures[a].owner;
      q in s'.queues && s'.queues[q] == s.queues[q][1..]
  {
    r, s' := Helping(s, t, Reading(g, a, Helped), g, v), Helping(s, t, Free, g, v);
    ReadingResult(s, t, s.threads[t].bodies, r.held, r.futures, r.queues, g, a, Helped);
    hide Does;
  }

  lemma UnsettledRead(s: State, t: Tid, a: Fid) returns (r: State, s': State)
    requires t in s.threads
    ensures r == Unsettling(s, t, a) && Does(r, Read(t), s')
    ensures t in r.threads && r.threads[t].pc == Reading(a, a, Unsettled) && r.futures == s.futures
  {
    r, s' := Unsettling(s, t, a), Put(s, t, Thread(s.threads[t].bodies, Free), s.held, s.futures, s.queues);
    ReadingResult(s, t, s.threads[t].bodies, r.held, r.futures, r.queues, a, a, Unsettled);
    hide Does;
  }

  lemma TwoReads(s0: State, es0: seq<Event>, s1: State, es1: seq<Event>, r1: State, s2: State, es2: seq<Event>,
                 r2: State,
                 s3: State, e: Event) returns (ss: seq<State>, es: seq<Event>)
    requires Init(s0) && Steps(s0, es0, s1) && Steps(s1, es1, r1) && Does(r1, e, s2) && Steps(s2, es2, r2)
    requires Does(r2, e, s3)
    ensures Run(ss, es) && |es| == |es0 + es1| + 2 + |es2|
    ensures ss[|es0 + es1|] == r1 && es[|es0 + es1|] == e
    ensures ss[|es0 + es1| + 1 + |es2|] == r2 && es[|es0 + es1| + 1 + |es2|] == e
  {
    hide Steps, States, Enabled, Apply, Does, Init;
    Joined(s0, es0, s1, es1, r1);
    var first := More(s0, es0 + es1, r1, e, s2);
    Joined(s0, first, s2, es2, r2);
    es := More(s0, first + es2, r2, e, s3);
    ss := States(s0, es);
    AreRun(s0, es, s3);
    assert es == (es0 + es1) + ([e] + es2 + [e]);
    StateThen(s0, es0 + es1, r1, [e] + es2 + [e]);
    StateThen(s0, first + es2, r2, [e]);
  }

  lemma Stolen() returns (s0: State, es: seq<Event>, s: State)
    ensures Init(s0) && Steps(s0, es, s)
    ensures
      && s.held == map[] && 0 in s.threads && MayCall(s, 0)
      && Local(0) in s.queues && s.queues[Local(0)] == [2] && 1 in s.futures && 2 in s.futures
      && s.futures[1].owner == s.futures[2].owner == Local(0)
      && s.futures[1].status == RUNNING && s.futures[1].result == None
  {
    hide Steps;
    var idle := Thread([], Free);
    s0 := State({0, 1}, map[], map[Global := [], Local(0) := [], Local(1) := []], map[],
                map[0 := idle, 1 := idle, 2 := idle]);
    es := Submits(s0, 2, 0);
    s := Submitting(s0, 2, 0);
    var more := Works(s, 0, Global);
    Joined(s0, es, s, more, Working(s, 0, Global));
    es, s := es + more, Working(s, 0, Global);
    more := Submits(s, 0, 1);
    Joined(s0, es, s, more, Submitting(s, 0, 1));
    es, s := es + more, Submitting(s, 0, 1);
    more := Submits(s, 0, 2);
    Joined(s0, es, s, more, Submitting(s, 0, 2));
    es, s := es + more, Submitting(s, 0, 2);
    more := Works(s, 1, Local(0));
    Joined(s0, es, s, more, Working(s, 1, Local(0)));
    es, s := es + more, Working(s, 1, Local(0));
  }
}
