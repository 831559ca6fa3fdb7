/**
 HThreadPool with a fixed number of threads, already started: an interleaving model in which every
 access to shared state is a step of its own. A task is named by its commit number.
 */
module ThreadPool {
  import opened Bytes

  /**
   A worker's place in the loop of createThread. `Sees` to `Holds` are inside `task_mutex`:
   the queue was found non-empty, `--idle_thread_num` is done, the front has been popped.
   */
  datatype Worker =
    | Out
    | Sees
    | Booked
    | Holds(task: nat)
    | Ready(task: nat)
    | Running(task: nat)
    | Done
  {
    predicate InLock() { Sees? || Booked? || Holds? }

    predicate Busy() { !Out? && !Sees? }

    predicate HasTask() { Holds? || Ready? || Running? }
  }

  /** A caller of wait(): `mark` is the number of tasks pushed before the call. */
  datatype Waiter =
    | Away
    | Checking(mark: nat)
    | SawEmpty(mark: nat)
    | Returned(mark: nat)

  /** `popped`, `started` and `finished` record history; the code does not read them. */
  datatype Pool = Pool(
    workers: seq<Worker>, lock: Option<nat>, queue: seq<nat>, idle: int, waiters: seq<Waiter>,
    pushed: nat, popped: nat, started: seq<nat>, finished: set<nat>)

  datatype Action =
    | Commit
    | Acquire(i: nat)
    | Book(i: nat)
    | Pop(i: nat)
    | Release(i: nat)
    | Start(i: nat)
    | Finish(i: nat)
    | Unbook(i: nat)
    | CallWait(w: nat)
    | SeeQueue(w: nat)
    | SeeIdle(w: nat)

  function Initial(threads: nat, waiters: nat): Pool {
    Pool(seq(threads, _ => Out), None, [], threads, seq(waiters, _ => Away), 0, 0, [], {})
  }

  predicate OfWorker(a: Action) {
    a.Acquire? || a.Book? || a.Pop? || a.Release? || a.Start? || a.Finish? || a.Unbook?
  }

  /** A step is possible now; `Acquire` with an empty queue just goes round the loop again. */
  predicate Enabled(p: Pool, a: Action) {
    match a
    case Commit => p.lock.None?
    case Acquire(i) => i < |p.workers| && p.workers[i].Out? && p.lock.None? && p.queue != []
    case Book(i) => i < |p.workers| && p.workers[i].Sees?
    case Pop(i) => i < |p.workers| && p.workers[i].Booked? && p.queue != []
    case Release(i) => i < |p.workers| && p.workers[i].Holds?
    case Start(i) => i < |p.workers| && p.workers[i].Ready?
    case Finish(i) => i < |p.workers| && p.workers[i].Running?
    case Unbook(i) => i < |p.workers| && p.workers[i].Done?
    case CallWait(w) => w < |p.waiters|
    case SeeQueue(w) => w < |p.waiters| && p.waiters[w].Checking?
    case SeeIdle(w) => w < |p.waiters| && p.waiters[w].SawEmpty?
  }

  function Effect(p: Pool, a: Action): Pool
    requires Enabled(p, a)
  {
    match a
    case Commit => p.(queue := p.queue + [p.pushed], pushed := p.pushed + 1)
    case Acquire(i) => p.(workers := p.workers[i := Sees], lock := Some(i))
    case Book(i) => p.(workers := p.workers[i := Booked], idle := p.idle - 1)
    case Pop(i) =>
      p.(workers := p.workers[i := Holds(p.queue[0])], queue := p.queue[1..], popped := p.popped + 1)
    case Release(i) => p.(workers := p.workers[i := Ready(p.workers[i].task)], lock := None)
    case Start(i) =>
      p.(workers := p.workers[i := Running(p.workers[i].task)], started := p.started + [p.workers[i].task])
    case Finish(i) => p.(workers := p.workers[i := Done], finished := p.finished + {p.workers[i].task})
    case Unbook(i) => p.(workers := p.workers[i := Out], idle := p.idle + 1)
    case CallWait(w) => p.(waiters := p.waiters[w := Checking(p.pushed)])
    case SeeQueue(w) =>
      if p.queue == [] then p.(waiters := p.waiters[w := SawEmpty(p.waiters[w].mark)]) else p
    case SeeIdle(w) =>
      var m := p.waiters[w].mark;
      p.(waiters := p.waiters[w := if p.idle == |p.workers| then Returned(m) else Checking(m)])
  }

  /** Every schedule is a sequence of actions; those that are not possible are passed over. */
  function Exec(p: Pool, actions: seq<Action>): Pool {
    if actions == [] then p
    else
      var q := Exec(p, actions[..|actions| - 1]);
      var a := actions[|actions| - 1];
      if Enabled(q, a) then Effect(q, a) else q
  }

  function CountBusy(workers: seq<Worker>): nat {
    if workers == [] then 0
    else CountBusy(workers[..|workers| - 1]) + (if workers[|workers| - 1].Busy() then 1 else 0)
  }

  lemma {:induction false} CountBusyUpdate(workers: seq<Worker>, i: nat, w: Worker)
    requires i < |workers|
    ensures CountBusy(workers[i := w]) ==
            CountBusy(workers) + (if w.Busy() then 1 else 0) - (if workers[i].Busy() then 1 else 0)
  {
    var n := |workers| - 1;
    if i == n {
      assert workers[i := w][..n] == workers[..n];
    } else {
      CountBusyUpdate(workers[..n], i, w);
      assert workers[i := w][..n] == workers[..n][i := w];
    }
  }

  lemma {:induction false} NoneBusy(workers: seq<Worker>)
    requires CountBusy(workers) == 0
    ensures forall i :: 0 <= i < |workers| ==> !workers[i].Busy()
  {
    if workers != [] {
      NoneBusy(workers[..|workers| - 1]);
      forall i | 0 <= i < |workers|
        ensures !workers[i].Busy()
      {
        if i < |workers| - 1 {
          assert workers[i] == workers[..|workers| - 1][i];
        }
      }
    }
  }

  lemma {:induction false} NoneBusyAtFirst(n: nat)
    ensures CountBusy(seq(n, _ => Out)) == 0
  {
    var workers := seq(n, _ => Out);
    if n > 0 {
      assert workers[..n - 1] == seq(n - 1, _ => Out);
      NoneBusyAtFirst(n - 1);
    }
  }

  // ---- The invariant ----

  /** The mutex: exactly the worker inside it has it, and what it saw still holds. */
  ghost predicate LockInv(p: Pool) {
    && (forall i :: 0 <= i < |p.workers| ==> (p.workers[i].InLock() <==> p.lock == Some(i)))
    && (forall i :: 0 <= i < |p.workers| && (p.workers[i].Sees? || p.workers[i].Booked?) ==> p.queue != [])
    && (p.lock.Some? ==> p.lock.value < |p.workers|)
  }

  /** The queue holds the commit numbers from `popped` to `pushed`, in order. */
  ghost predicate QueueInv(p: Pool) {
    && |p.queue| == p.pushed - p.popped
    && (forall k :: 0 <= k < |p.queue| ==> p.queue[k] == p.popped + k)
  }

  ghost predicate Held(workers: seq<Worker>, t: nat) {
    exists i :: 0 <= i < |workers| && workers[i].HasTask() && workers[i].task == t
  }

  /** Each popped task is with exactly one worker, or finished. */
  ghost predicate TaskInv(p: Pool) {
    && (forall i :: 0 <= i < |p.workers| && p.workers[i].HasTask() ==>
          p.workers[i].task < p.popped && p.workers[i].task !in p.finished)
    && (forall i, j :: 0 <= i < j < |p.workers| && p.workers[i].HasTask() && p.workers[j].HasTask() ==>
          p.workers[i].task != p.workers[j].task)
    && (forall t: nat :: t < p.popped ==> t in p.finished || Held(p.workers, t))
  }

  ghost predicate StartInv(p: Pool) {
    && (forall i, j :: 0 <= i < j < |p.started| ==> p.started[i] != p.started[j])
    && (forall i :: 0 <= i < |p.workers| && (p.workers[i].Holds? || p.workers[i].Ready?) ==>
          p.workers[i].task !in p.started)
    && (forall i :: 0 <= i < |p.workers| && p.workers[i].Running? ==> p.workers[i].task in p.started)
    && (forall t :: t in p.started ==> t < p.popped)
    && (forall t :: t in p.finished ==> t in p.started)
  }

  ghost predicate WaitInv(p: Pool) {
    forall w :: 0 <= w < |p.waiters| ==>
      match p.waiters[w]
      case Away => true
      case Checking(m) => m <= p.pushed
      case SawEmpty(m) => m <= p.popped
      case Returned(m) => forall t: nat :: t < m ==> t in p.finished
  }

  ghost predicate Inv(p: Pool) {
    && p.idle == |p.workers| - CountBusy(p.workers)
    && LockInv(p) && QueueInv(p) && TaskInv(p) && StartInv(p) && WaitInv(p)
  }

  lemma IdleStep(p: Pool, a: Action)
    requires Inv(p) && Enabled(p, a)
    ensures var q := Effect(p, a); q.idle == |q.workers| - CountBusy(q.workers)
  {
    if OfWorker(a) {
      CountBusyUpdate(p.workers, a.i, Effect(p, a).workers[a.i]);
    }
  }

  lemma LockStep(p: Pool, a: Action)
    requires Inv(p) && Enabled(p, a)
    ensures LockInv(Effect(p, a)) && QueueInv(Effect(p, a))
  {
    hide TaskInv, StartInv, WaitInv, CountBusy;
  }

  lemma TaskKeptStep(p: Pool, a: Action)
    requires Inv(p) && Enabled(p, a)
    ensures forall t: nat :: t < Effect(p, a).popped ==> t in Effect(p, a).finished || Held(Effect(p, a).workers, t)
  {
    hide WaitInv, CountBusy, LockInv, StartInv;
    var q := Effect(p, a);
    forall t: nat | t < q.popped
      ensures t in q.finished || Held(q.workers, t)
    {
      if t == p.popped {
        assert q.workers[a.i].HasTask() && q.workers[a.i].task == t;
      } else if t !in p.finished {
        assert Held(p.workers, t);
        var i :| 0 <= i < |p.workers| && p.workers[i].HasTask() && p.workers[i].task == t;
        if !(a.Finish? && a.i == i) {
          assert q.workers[i].HasTask() && q.workers[i].task == t;
        }
      }
    }
  }

  lemma TaskStep(p: Pool, a: Action)
    requires Inv(p) && Enabled(p, a)
    ensures TaskInv(Effect(p, a))
  {
    hide WaitInv, CountBusy, LockInv, Held;
    TaskKeptStep(p, a);
  }

  lemma StartStep(p: Pool, a: Action)
    requires Inv(p) && Enabled(p, a)
    ensures StartInv(Effect(p, a))
  {
    hide WaitInv, CountBusy, LockInv, Held;
  }

  lemma HolderIsBusy(workers: seq<Worker>, t: nat)
    requires Held(workers, t)
    ensures exists i :: 0 <= i < |workers| && workers[i].Busy()
  {
    var i :| 0 <= i < |workers| && workers[i].HasTask() && workers[i].task == t;
    assert workers[i].Busy();
  }

  lemma WaitStep(p: Pool, a: Action)
    requires Inv(p) && Enabled(p, a)
    ensures WaitInv(Effect(p, a))
  {
    hide StartInv, CountBusy, LockInv;
    if a.SeeIdle? && p.idle == |p.workers| {
      NoneBusy(p.workers);
      forall t: nat | t < p.popped
        ensures t in p.finished
      {
        if Held(p.workers, t) {
          HolderIsBusy(p.workers, t);
          assert false;
        }
      }
    }
  }

  lemma InitialInv(threads: nat, waiters: nat)
    ensures Inv(Initial(threads, waiters))
  {
    NoneBusyAtFirst(threads);
  }

  /** Every interleaving of committers, workers and waiters keeps the invariant. */
  lemma {:induction false} EveryRun(threads: nat, waiters: nat, actions: seq<Action>)
    ensures Inv(Exec(Initial(threads, waiters), actions))
    ensures |Exec(Initial(threads, waiters), actions).workers| == threads
  {
    if actions == [] {
      InitialInv(threads, waiters);
    } else {
      EveryRun(threads, waiters, actions[..|actions| - 1]);
      var p, a := Exec(Initial(threads, waiters), actions[..|actions| - 1]), actions[|actions| - 1];
      hide Inv;
      if Enabled(p, a) {
        StepInv(p, a);
      }
    }
  }

  lemma StepInv(p: Pool, a: Action)
    requires Inv(p) && Enabled(p, a)
    ensures Inv(Effect(p, a)) && |Effect(p, a).workers| == |p.workers|
  {
    hide LockInv, QueueInv, TaskInv, StartInv, WaitInv, CountBusy;
    IdleStep(p, a);
    LockStep(p, a);
    TaskStep(p, a);
    StartStep(p, a);
    WaitStep(p, a);
  }

  // ---- The laws ----

  /** When wait() returns, every task pushed before the call has finished. */
  lemma WaitReturnsAfterAllBefore(threads: nat, waiters: nat, actions: seq<Action>, w: nat, t: nat)
    requires var p := Exec(Initial(threads, waiters), actions);
             w < |p.waiters| && p.waiters[w].Returned? && t < p.waiters[w].mark
    ensures t in Exec(Initial(threads, waiters), actions).finished
  {
    EveryRun(threads, waiters, actions);
    assert WaitInv(Exec(Initial(threads, waiters), actions));
  }

  /** Tasks are dequeued in commit order, and each is started at most once and only after its dequeue. */
  lemma DequeuedInOrderStartedOnce(threads: nat, waiters: nat, actions: seq<Action>)
    ensures var p := Exec(Initial(threads, waiters), actions);
            && p.popped <= p.pushed
            && p.queue == seq(p.pushed - p.popped, k requires 0 <= k => p.popped + k)
            && (forall i, j :: 0 <= i < j < |p.started| ==> p.started[i] != p.started[j])
            && (forall t :: t in p.started ==> t < p.popped)
            && (forall t :: t in p.finished ==> t in p.started)
  {
    EveryRun(threads, waiters, actions);
    var p := Exec(Initial(threads, waiters), actions);
    assert QueueInv(p) && StartInv(p);
  }

  /**
   No deadlock: with at least one thread, either some worker can move, or every committed task has
   finished and the test in wait() succeeds.
   */
  lemma NeverStuck(threads: nat, waiters: nat, actions: seq<Action>)
    requires threads > 0
    ensures var p := Exec(Initial(threads, waiters), actions);
            || (exists a :: OfWorker(a) && Enabled(p, a))
            || (p.queue == [] && p.idle == threads && forall t: nat :: t < p.pushed ==> t in p.finished)
  {
    EveryRun(threads, waiters, actions);
    var p := Exec(Initial(threads, waiters), actions);
    if !exists a :: OfWorker(a) && Enabled(p, a) {
      AtRest(p);
      assert QueueInv(p) && TaskInv(p);
      NoneBusy(p.workers);
      forall t: nat | t < p.pushed
        ensures t in p.finished
      {
        if Held(p.workers, t) {
          HolderIsBusy(p.workers, t);
          assert false;
        }
      }
    }
  }

  lemma WorkerMoves(p: Pool, i: nat)
    requires LockInv(p) && i < |p.workers| && p.workers[i] != Out
    ensures exists a :: OfWorker(a) && Enabled(p, a)
  {
    var a := match p.workers[i]
      case Sees => Book(i)
      case Booked => Pop(i)
      case Holds(_) => Release(i)
      case Ready(_) => Start(i)
      case Running(_) => Finish(i)
      case _ => Unbook(i);
    assert OfWorker(a) && Enabled(p, a);
  }

  lemma {:induction false} AllOutNotBusy(workers: seq<Worker>)
    requires forall i :: 0 <= i < |workers| ==> workers[i] == Out
    ensures CountBusy(workers) == 0
  {
    if workers != [] {
      AllOutNotBusy(workers[..|workers| - 1]);
    }
  }

  // ---- wait() returns ----

  /** The loop tests queue and idle threads in turn, and is left exactly when the second test succeeds, too. */
  lemma WaitLoop(p: Pool, w: nat)
    requires w < |p.waiters|
    ensures var q := Effect(p, CallWait(w)); q.waiters[w] == Checking(p.pushed) && Enabled(q, SeeQueue(w))
    ensures Enabled(p, SeeQueue(w)) ==>
              var q := Effect(p, SeeQueue(w));
              && q.waiters[w].mark == p.waiters[w].mark
              && (Enabled(q, SeeIdle(w)) <==> p.queue == []) && (Enabled(q, SeeQueue(w)) <==> p.queue != [])
    ensures Enabled(p, SeeIdle(w)) ==>
              var q := Effect(p, SeeIdle(w));
              && !q.waiters[w].Away? && q.waiters[w].mark == p.waiters[w].mark
              && (q.waiters[w].Returned? <==> p.idle == |p.workers|)
              && (Enabled(q, SeeQueue(w)) <==> p.idle != |p.workers|)
  {
  }

  /** A call of wait() on an idle pool returns after one round, with everything pushed so far as its mark. */
  lemma IdleWaitReturns(p: Pool, w: nat)
    requires p.queue == [] && p.idle == |p.workers| && w < |p.waiters|
    ensures Exec(p, [CallWait(w), SeeQueue(w), SeeIdle(w)]) == p.(waiters := p.waiters[w := Returned(p.pushed)])
  {
    var p1 := p.(waiters := p.waiters[w := Checking(p.pushed)]);
    assert Exec(p, [CallWait(w)]) == p1 by { assert [CallWait(w)][..0] == [] && Exec(p, []) == p; }
    ExecConcat(p, [CallWait(w)], [SeeQueue(w), SeeIdle(w)]);
    assert [CallWait(w)] + [SeeQueue(w), SeeIdle(w)] == [CallWait(w), SeeQueue(w), SeeIdle(w)];
    hide Exec;
    BothTests(p1, w);
    assert p1.waiters[w := Returned(p.pushed)] == p.waiters[w := Returned(p.pushed)];
  }

  /** How many steps a worker has before it, counted from the end of its round. */
  function Stage(w: Worker): nat {
    match w
    case Booked => 0
    case Sees => 1
    case Out => 2
    case Done => 4
    case Running(_) => 5
    case Ready(_) => 6
    case Holds(_) => 7
  }

  function Stages(workers: seq<Worker>): nat {
    if workers == [] then 0 else Stages(workers[..|workers| - 1]) + Stage(workers[|workers| - 1])
  }

  /** A bound for the steps the workers can make with what is queued. */
  function Work(p: Pool): nat {
    8 * |p.queue| + Stages(p.workers)
  }

  lemma {:induction false} StagesUpdate(workers: seq<Worker>, i: nat, w: Worker)
    requires i < |workers|
    ensures Stages(workers[i := w]) == Stages(workers) + Stage(w) - Stage(workers[i])
  {
    var n := |workers| - 1;
    if i == n {
      assert workers[i := w][..n] == workers[..n];
    } else {
      StagesUpdate(workers[..n], i, w);
      assert workers[i := w][..n] == workers[..n][i := w];
    }
  }

  lemma WorkShrinks(p: Pool, a: Action)
    requires OfWorker(a) && Enabled(p, a)
    ensures Work(Effect(p, a)) < Work(p)
    ensures Effect(p, a).waiters == p.waiters && Effect(p, a).pushed == p.pushed
  {
    StagesUpdate(p.workers, a.i, Effect(p, a).workers[a.i]);
  }

  /** All of these steps are possible when their turn comes. */
  ghost predicate Possible(p: Pool, actions: seq<Action>) {
    actions != [] ==>
      var n := |actions| - 1;
      Possible(p, actions[..n]) && Enabled(Exec(p, actions[..n]), actions[n])
  }

  /** Without new tasks the workers come to rest, however they are scheduled. */
  lemma {:induction false} WorkersRunOut(p: Pool, actions: seq<Action>)
    requires (forall k :: 0 <= k < |actions| ==> OfWorker(actions[k])) && Possible(p, actions)
    ensures |actions| + Work(Exec(p, actions)) <= Work(p)
    ensures Exec(p, actions).waiters == p.waiters && Exec(p, actions).pushed == p.pushed
  {
    hide Effect, Enabled, Work;
    if actions != [] {
      var n := |actions| - 1;
      WorkersRunOut(p, actions[..n]);
      WorkShrinks(Exec(p, actions[..n]), actions[n]);
    }
  }

  lemma ExecConcat(p: Pool, a: seq<Action>, b: seq<Action>)
    ensures Exec(p, a + b) == Exec(Exec(p, a), b)
  {
    hide Effect, Enabled;
    if b == [] {
      assert a + b == a;
    } else {
      ExecConcat(p, a, b[..|b| - 1]);
      assert (a + b)[..|a + b| - 1] == a + b[..|b| - 1];
    }
  }

  /** Worker steps that empty the queue and bring every worker back to the top of its loop. */
  lemma {:induction false} Drain(p: Pool) returns (more: seq<Action>)
    requires Inv(p) && |p.workers| > 0
    ensures (forall k :: 0 <= k < |more| ==> OfWorker(more[k])) && Possible(p, more)
    ensures Inv(Exec(p, more)) && Exec(p, more).queue == [] && Exec(p, more).idle == |Exec(p, more).workers|
    decreases Work(p)
  {
    hide Inv, Effect, Enabled, Work;
    if a :| OfWorker(a) && Enabled(p, a) {
      StepInv(p, a);
      WorkShrinks(p, a);
      var rest := Drain(Effect(p, a));
      more := [a] + rest;
      OneBefore(p, a, rest);
    } else {
      AtRest(p);
      more := [];
    }
  }

  lemma {:induction false} OneBefore(p: Pool, a: Action, rest: seq<Action>)
    requires Enabled(p, a) && Possible(Effect(p, a), rest)
    ensures Possible(p, [a] + rest) && Exec(p, [a] + rest) == Exec(Effect(p, a), rest)
  {
    hide Effect, Enabled;
    assert [a][..0] == [] && Exec(p, [a]) == Effect(p, a);
    ExecConcat(p, [a], rest);
    if rest == [] {
      assert [a] + rest == [a];
    } else {
      var n := |rest| - 1;
      OneBefore(p, a, rest[..n]);
      ExecConcat(p, [a], rest[..n]);
      assert ([a] + rest)[..n + 1] == [a] + rest[..n];
    }
  }

  /** When no worker can move, the queue is empty and all threads are idle. */
  lemma AtRest(p: Pool)
    requires Inv(p) && |p.workers| > 0 && forall a :: OfWorker(a) ==> !Enabled(p, a)
    ensures p.queue == [] && p.idle == |p.workers|
  {
    assert LockInv(p);
    forall i | 0 <= i < |p.workers|
      ensures p.workers[i] == Out
    {
      if p.workers[i] != Out {
        WorkerMoves(p, i);
        assert false;
      }
    }
    if p.queue != [] {
      assert p.lock.None?;
      assert !Enabled(p, Acquire(0)) by { assert OfWorker(Acquire(0)); }
      assert false;
    }
    AllOutNotBusy(p.workers);
  }

  /**
   From every reachable state, a caller of wait() returns after some more steps of the workers and one round
   of its own two tests; no step of anybody else is needed.
   */
  lemma WaitCanReturn(threads: nat, waiters: nat, actions: seq<Action>, w: nat) returns (more: seq<Action>)
    requires threads > 0
    requires var p := Exec(Initial(threads, waiters), actions);
             w < |p.waiters| && (p.waiters[w].Checking? || p.waiters[w].SawEmpty?)
    ensures forall k :: 0 <= k < |more| ==> OfWorker(more[k])
    ensures var p := Exec(Initial(threads, waiters), actions);
            Exec(p, more + [SeeQueue(w), SeeIdle(w)]).waiters == p.waiters[w := Returned(p.waiters[w].mark)]
  {
    hide Inv, Exec, Effect, Enabled, OfWorker;
    EveryRun(threads, waiters, actions);
    var p := Exec(Initial(threads, waiters), actions);
    more := Drain(p);
    WorkersRunOut(p, more);
    ExecConcat(p, more, [SeeQueue(w), SeeIdle(w)]);
    BothTests(Exec(p, more), w);
  }

  lemma BothTests(p: Pool, w: nat)
    requires p.queue == [] && p.idle == |p.workers| && w < |p.waiters|
    requires p.waiters[w].Checking? || p.waiters[w].SawEmpty?
    ensures Exec(p, [SeeQueue(w), SeeIdle(w)]) == p.(waiters := p.waiters[w := Returned(p.waiters[w].mark)])
  {
    var run, m := [SeeQueue(w), SeeIdle(w)], p.waiters[w].mark;
    assert run[..1] == [SeeQueue(w)] && run[..1][..0] == [];
    assert Exec(p, []) == p;
    var p1 := Exec(p, run[..1]);
    assert p1 == p.(waiters := p.waiters[w := SawEmpty(m)]);
    assert p1.waiters[w := Returned(m)] == p.waiters[w := Returned(m)];
  }

  // ---- Start order: guaranteed by a single thread only ----

  predicate InCommitOrder(started: seq<nat>) {
    forall k :: 0 <= k < |started| ==> started[k] == k
  }

  /** With one thread, the started tasks are the popped ones, but for the one not yet started. */
  ghost predicate OneThreadInv(p: Pool) {
    && |p.workers| == 1
    && InCommitOrder(p.started)
    && |p.started| == p.popped - (if p.workers[0].Holds? || p.workers[0].Ready? then 1 else 0)
    && (p.workers[0].HasTask() ==> p.workers[0].task == p.popped - 1)
  }

  lemma {:induction false} OneThreadRun(waiters: nat, actions: seq<Action>)
    ensures OneThreadInv(Exec(Initial(1, waiters), actions))
  {
    if actions != [] {
      var before, a := actions[..|actions| - 1], actions[|actions| - 1];
      OneThreadRun(waiters, before);
      EveryRun(1, waiters, before);
      OneThreadStep(Exec(Initial(1, waiters), before), a);
    }
  }

  lemma OneThreadStep(p: Pool, a: Action)
    requires Inv(p) && OneThreadInv(p)
    ensures Enabled(p, a) ==> OneThreadInv(Effect(p, a))
  {
    hide LockInv, TaskInv, StartInv, WaitInv, CountBusy;
    assert QueueInv(p);
  }

  /** Two workers take tasks 0 and 1; the second starts first. */
  const OVERTAKING: seq<Action> :=
    [Commit, Commit, Acquire(0), Book(0), Pop(0), Release(0), Acquire(1), Book(1), Pop(1), Release(1), Start(1)]

  lemma ExecSnoc(p: Pool, actions: seq<Action>, a: Action)
    ensures Exec(p, actions + [a]) ==
            var q := Exec(p, actions); if Enabled(q, a) then Effect(q, a) else q
  {
    assert (actions + [a])[..|actions|] == actions;
  }

  lemma Overtaken(threads: nat, waiters: nat)
    requires threads >= 2
    ensures Exec(Initial(threads, waiters), OVERTAKING).started == [1]
  {
    var p := Initial(threads, waiters);
    var n := |OVERTAKING|;
    var q: Pool := p;
    assert OVERTAKING[..0] == [];
    for k := 0 to n
      invariant q == Exec(p, OVERTAKING[..k])
      invariant |q.workers| == threads
      invariant k == 0 ==> q == p
      invariant 1 <= k ==>
                q.pushed >= 1 &&
                q.queue == if k == 1 then [0] else if k <= 4 then [0, 1] else if k <= 8 then [1] else []
      invariant q.lock == if 3 <= k <= 5 then Some(0) else if 7 <= k <= 9 then Some(1) else None
      invariant q.pushed == if k <= 1 then k else 2
      invariant q.workers[0] ==
                if k <= 2 then Out else if k == 3 then Sees else if k == 4 then Booked
                else if k == 5 then Holds(0) else Ready(0)
      invariant q.workers[1] ==
                if k <= 6 then Out else if k == 7 then Sees else if k == 8 then Booked
                else if k == 9 then Holds(1) else if k == 10 then Ready(1) else Running(1)
      invariant q.started == if k == 11 then [1] else []
    {
      ExecSnoc(p, OVERTAKING[..k], OVERTAKING[k]);
      assert OVERTAKING[..k + 1] == OVERTAKING[..k] + [OVERTAKING[k]];
      q := Effect(q, OVERTAKING[k]);
    }
    assert OVERTAKING[..n] == OVERTAKING;
  }

  /**
   Tasks run in commit order in every schedule exactly when the pool has at most one thread:
   dequeueing is ordered, but a worker that dequeued later may call its task first.
   */
  lemma StartOrderIff(threads: nat, waiters: nat)
    ensures (forall actions :: InCommitOrder(Exec(Initial(threads, waiters), actions).started)) <==> threads <= 1
  {
    if threads >= 2 {
      Overtaken(threads, waiters);
      var started := Exec(Initial(threads, waiters), OVERTAKING).started;
      assert started[0] == 1;
      assert !InCommitOrder(started);
    } else {
      forall actions
        ensures InCommitOrder(Exec(Initial(threads, waiters), actions).started)
      {
        if threads == 1 {
          OneThreadRun(waiters, actions);
        } else {
          NoThreadNoStart(waiters, actions);
        }
      }
    }
  }

  lemma {:induction false} NoThreadNoStart(waiters: nat, actions: seq<Action>)
    ensures Exec(Initial(0, waiters), actions).started == []
  {
    if actions != [] {
      NoThreadNoStart(waiters, actions[..|actions| - 1]);
      EveryRun(0, waiters, actions[..|actions| - 1]);
    }
  }
}
