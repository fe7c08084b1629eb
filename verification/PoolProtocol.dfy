// Every interleaving of the workers of a thread pool with the threads that add jobs, wait and
// destroy. Each critical section is one step. A thread asleep on a condition variable is in a phase
// of its own; being signalled, or waking for no reason, makes it ready to take the mutex again.
module PoolProtocol {
  import opened Common
  import opened PoolSpec

  // number is the place of the job in the order of submission.
  datatype Job = Job(number: nat, fn: nat, arg: nat)

  // Ready: about to take the mutex at the top of the loop. Returned: the function of the job has
  // returned, and the mutex is about to be taken for the bookkeeping.
  datatype Phase = Ready | Asleep | Running(job: Job) | Returned(job: Job) | Exited

  // The one thread that waits or destroys. Testing: about to take the mutex and test; Waiting: asleep
  // on working_cond; Freeing: thread_pool_wait has returned to thread_pool_destroy.
  datatype Caller = Away | Testing(destroying: bool) | Waiting(destroying: bool) | Freeing | Freed

  // started, finished and submitted record the history of the run, discarded the nodes released by
  // thread_pool_destroy.
  datatype State = State(
    pool: Pool<Job>, workers: seq<Phase>, caller: Caller,
    submitted: seq<Job>, started: seq<Job>, finished: seq<Job>, discarded: seq<Job>)

  datatype Step =
    | Add(fn: nat, arg: nat)
    | Check(i: nat)
    | Wake(i: nat)
    | Return(i: nat)
    | Finish(i: nat)
    | Wait
    | Test
    | WakeCaller
    | Destroy
    | Free

  function Init(num: nat): State
  {
    var p: Pool<Job> := Created(num);
    State(p, seq(p.threads, _ => Ready), Away, [], [], [], [])
  }

  // A worker step is possible in the phase it starts from, whatever has happened to the pool. No job
  // is added once thread_pool_destroy has begun, and one thread at a time waits or destroys.
  predicate Enabled(s: State, step: Step)
  {
    match step
    case Add(_, _) => !s.pool.shutdown
    case Check(i) => i < |s.workers| && s.workers[i].Ready?
    case Wake(i) => i < |s.workers| && s.workers[i].Asleep?
    case Return(i) => i < |s.workers| && s.workers[i].Running?
    case Finish(i) => i < |s.workers| && s.workers[i].Returned?
    case Wait => s.caller.Away?
    case Test => s.caller.Testing?
    case WakeCaller => s.caller.Waiting?
    case Destroy => s.caller.Away?
    case Free => s.caller.Freeing?
  }

  // pthread_cond_broadcast on worker_cond.
  function WakeAll(workers: seq<Phase>): (r: seq<Phase>)
    ensures |r| == |workers|
  {
    seq(|workers|, i requires 0 <= i < |workers| => if workers[i].Asleep? then Ready else workers[i])
  }

  // pthread_cond_signal on working_cond.
  function Signal(c: Caller): Caller
  {
    if c.Waiting? then Testing(c.destroying) else c
  }

  function Next(s: State, step: Step): State
    requires Enabled(s, step)
  {
    match step
    case Add(fn, arg) =>
      var job := Job(|s.submitted|, fn, arg);
      s.(pool := Added(s.pool, job), workers := WakeAll(s.workers), submitted := s.submitted + [job])
    case Check(i) => (
      match TurnOf(s.pool)
      case Leave => s.(pool := Left(s.pool), workers := s.workers[i := Exited], caller := Signal(s.caller))
      case Sleep => s.(workers := s.workers[i := Asleep])
      case Take =>
        var job := s.pool.queue[0];
        s.(pool := Taken(s.pool), workers := s.workers[i := Running(job)], started := s.started + [job])
      )
    case Wake(i) => s.(workers := s.workers[i := Ready])
    case Return(i) => s.(workers := s.workers[i := Returned(s.workers[i].job)])
    case Finish(i) =>
      var p := Finished(s.pool);
      s.(pool := p, workers := s.workers[i := Ready], caller := if Idle(p) then Signal(s.caller) else s.caller,
         finished := s.finished + [s.workers[i].job])
    case Wait => s.(caller := Testing(false))
    case Test =>
      s.(caller := if MustWait(s.pool) then Waiting(s.caller.destroying)
                   else if s.caller.destroying then Freeing else Away)
    case WakeCaller => s.(caller := Testing(s.caller.destroying))
    case Destroy =>
      s.(pool := ShutDown(s.pool), workers := WakeAll(s.workers), caller := Testing(true), discarded := s.pool.queue)
    case Free => s.(caller := Freed)
  }

  predicate Possible(s: State, run: seq<Step>)
    decreases |run|
  {
    run == [] || (Enabled(s, run[0]) && Possible(Next(s, run[0]), run[1..]))
  }

  function After(s: State, run: seq<Step>): State
    requires Possible(s, run)
    decreases |run|
  {
    if run == [] then s else After(Next(s, run[0]), run[1..])
  }

  // ---------------------------------------------------------------- counting over the workers

  function Holds(w: Phase): multiset<Job>
  {
    if w.Running? || w.Returned? then multiset{w.job} else multiset{}
  }

  function Held(workers: seq<Phase>): multiset<Job>
  {
    if workers == [] then multiset{} else Holds(workers[0]) + Held(workers[1..])
  }

  function Alive(w: Phase): nat { if w.Exited? then 0 else 1 }

  function Busy(w: Phase): nat { if w.Running? || w.Returned? then 1 else 0 }

  // Worker steps a worker can still make before it sleeps or exits, if it takes no other job.
  function Rank(w: Phase): nat
  {
    match w
    case Running(_) => 3
    case Returned(_) => 2
    case Ready => 1
    case Asleep => 0
    case Exited => 0
  }

  function Total(workers: seq<Phase>, f: Phase -> nat): nat
  {
    if workers == [] then 0 else f(workers[0]) + Total(workers[1..], f)
  }

  lemma {:induction false} TotalUpdate(workers: seq<Phase>, f: Phase -> nat, i: nat, w: Phase)
    requires i < |workers|
    ensures Total(workers[i := w], f) == Total(workers, f) - f(workers[i]) + f(w)
    decreases i
  {
    var u := workers[i := w];
    if i == 0 {
      assert u[1..] == workers[1..];
    } else {
      assert u[1..] == workers[1..][i - 1 := w];
      TotalUpdate(workers[1..], f, i - 1, w);
    }
  }

  lemma {:induction false} TotalWake(workers: seq<Phase>, f: Phase -> nat)
    requires f(Ready) == f(Asleep)
    ensures Total(WakeAll(workers), f) == Total(workers, f)
    decreases |workers|
  {
    if |workers| > 0 {
      assert WakeAll(workers)[1..] == WakeAll(workers[1..]);
      TotalWake(workers[1..], f);
    }
  }

  lemma {:induction false} TotalAtLeast(workers: seq<Phase>, f: Phase -> nat, i: nat)
    requires i < |workers|
    ensures f(workers[i]) <= Total(workers, f)
    decreases i
  {
    if i > 0 {
      TotalAtLeast(workers[1..], f, i - 1);
    }
  }

  lemma {:induction false} TotalZero(workers: seq<Phase>, f: Phase -> nat)
    requires Total(workers, f) > 0
    ensures exists i | 0 <= i < |workers| :: f(workers[i]) > 0
    decreases |workers|
  {
    if f(workers[0]) == 0 {
      TotalZero(workers[1..], f);
      var i :| 0 <= i < |workers[1..]| && f(workers[1..][i]) > 0;
      assert workers[i + 1] == workers[1..][i];
    }
  }

  lemma {:induction false} HeldUpdate(workers: seq<Phase>, i: nat, w: Phase)
    requires i < |workers|
    ensures Holds(workers[i]) <= Held(workers)
    ensures Held(workers[i := w]) == Held(workers) - Holds(workers[i]) + Holds(w)
    decreases i
  {
    hide Holds;
    var u := workers[i := w];
    if i == 0 {
      assert u[1..] == workers[1..];
      Exchanged(Holds(workers[0]), Held(workers[1..]), Holds(w));
    } else {
      assert u[1..] == workers[1..][i - 1 := w];
      HeldUpdate(workers[1..], i - 1, w);
      ExchangedBehind(Holds(workers[0]), Held(workers[1..]), Holds(workers[i]), Holds(w));
    }
  }

  lemma Exchanged(a: multiset<Job>, b: multiset<Job>, c: multiset<Job>)
    ensures c + b == (a + b) - a + c && a <= a + b
  {
  }

  lemma ExchangedBehind(a: multiset<Job>, b: multiset<Job>, c: multiset<Job>, d: multiset<Job>)
    requires c <= b
    ensures a + (b - c + d) == (a + b) - c + d && c <= a + b
  {
  }

  lemma {:induction false} HeldWake(workers: seq<Phase>)
    ensures Held(WakeAll(workers)) == Held(workers)
    decreases |workers|
  {
    if |workers| > 0 {
      assert WakeAll(workers)[1..] == WakeAll(workers[1..]);
      HeldWake(workers[1..]);
    }
  }

  lemma {:induction false} HeldCount(workers: seq<Phase>)
    ensures |Held(workers)| == Total(workers, Busy)
    decreases |workers|
  {
    if |workers| > 0 {
      HeldCount(workers[1..]);
    }
  }

  lemma {:induction false} HeldBySomeone(workers: seq<Phase>, job: Job)
    requires job in Held(workers)
    ensures exists i | 0 <= i < |workers| :: job in Holds(workers[i])
    decreases |workers|
  {
    if job !in Holds(workers[0]) {
      HeldBySomeone(workers[1..], job);
      var i :| 0 <= i < |workers[1..]| && job in Holds(workers[1..][i]);
      assert workers[i + 1] == workers[1..][i];
    }
  }

  // ---------------------------------------------------------------- the invariant

  // Jobs leave the queue in the order of submission, and every job taken is held by one worker or
  // finished.
  predicate InOrder(s: State)
  {
    && s.submitted == s.started + s.pool.queue
    && (forall k | 0 <= k < |s.submitted| :: s.submitted[k].number == k)
    && s.discarded == if s.pool.shutdown then s.pool.queue else []
  }

  predicate AllHeld(s: State) { OnHand(s.started, s.workers, s.finished) }

  predicate OnHand(started: seq<Job>, workers: seq<Phase>, finished: seq<Job>)
  {
    multiset(started) == Held(workers) + multiset(finished)
  }

  predicate CountsExact(s: State)
  {
    && s.pool.working == Total(s.workers, Busy)
    && s.pool.threads == Total(s.workers, Alive)
    && |s.workers| > 0
  }

  // No wake-up is lost.
  predicate WakeUpsKept(s: State)
  {
    && (forall i | 0 <= i < |s.workers| :: s.workers[i].Asleep? ==> s.pool.queue == [] && !s.pool.shutdown)
    && (s.caller.Waiting? ==>
          if s.pool.shutdown then s.pool.threads > 0 else s.pool.working > 0 || s.pool.queue != [])
  }

  predicate LifeCycle(s: State)
  {
    && (s.pool.shutdown <==> s.caller.Freeing? || s.caller.Freed?
                             || ((s.caller.Testing? || s.caller.Waiting?) && s.caller.destroying))
    && (forall i | 0 <= i < |s.workers| :: s.workers[i].Exited? ==> s.pool.shutdown)
    && (s.caller.Freeing? || s.caller.Freed? ==> s.pool.threads == 0)
  }

  predicate Inv(s: State)
  {
    InOrder(s) && AllHeld(s) && CountsExact(s) && WakeUpsKept(s) && LifeCycle(s)
  }

  lemma InitInv(num: nat)
    ensures Inv(Init(num))
  {
    var ws := Init(num).workers;
    AllReady(ws);
  }

  lemma {:induction false} AllReady(workers: seq<Phase>)
    requires forall i | 0 <= i < |workers| :: workers[i] == Ready
    ensures Held(workers) == multiset{} && Total(workers, Alive) == |workers| && Total(workers, Busy) == 0
    decreases |workers|
  {
    if |workers| > 0 {
      AllReady(workers[1..]);
    }
  }

  // The jobs on hand after one worker has kept, taken or finished a job.

  lemma KeepHeld(workers: seq<Phase>, i: nat, w: Phase, started: seq<Job>, finished: seq<Job>)
    requires i < |workers| && OnHand(started, workers, finished) && Holds(w) == Holds(workers[i])
    ensures OnHand(started, workers[i := w], finished)
  {
    hide Held, Holds;
    HeldUpdate(workers, i, w);
  }

  lemma TakeHeld(workers: seq<Phase>, i: nat, job: Job, started: seq<Job>, finished: seq<Job>)
    requires i < |workers| && OnHand(started, workers, finished) && workers[i].Ready?
    ensures OnHand(started + [job], workers[i := Running(job)], finished)
  {
    hide Held;
    HeldUpdate(workers, i, Running(job));
  }

  lemma FinishHeld(workers: seq<Phase>, i: nat, started: seq<Job>, finished: seq<Job>)
    requires i < |workers| && OnHand(started, workers, finished) && workers[i].Returned?
    ensures OnHand(started, workers[i := Ready], finished + [workers[i].job])
  {
    hide Held;
    HeldUpdate(workers, i, Ready);
  }

  lemma NextQueue(s: State, step: Step)
    requires InOrder(s) && LifeCycle(s) && Enabled(s, step)
    ensures InOrder(Next(s, step))
  {
    if step.Add? {
      Associative(s.started, s.pool.queue, [Job(|s.submitted|, step.fn, step.arg)]);
    } else if step.Check? && TurnOf(s.pool).Take? {
      var job := s.pool.queue[0];
      assert s.pool.queue == [job] + s.pool.queue[1..];
      Associative(s.started, [job], s.pool.queue[1..]);
    }
  }

  lemma NextHeld(s: State, step: Step)
    requires AllHeld(s) && Enabled(s, step)
    ensures AllHeld(Next(s, step))
  {
    hide OnHand, WakeAll;
    match step {
      case Add(_, _) => WakeHeld(s.workers, s.started, s.finished);
      case Destroy => WakeHeld(s.workers, s.started, s.finished);
      case Check(i) => CheckHeld(s, i);
      case Wake(i) => KeepHeld(s.workers, i, Ready, s.started, s.finished);
      case Return(i) => KeepHeld(s.workers, i, Returned(s.workers[i].job), s.started, s.finished);
      case Finish(i) => FinishHeld(s.workers, i, s.started, s.finished);
      case Wait =>
      case Test =>
      case WakeCaller =>
      case Free =>
    }
  }

  lemma CheckHeld(s: State, i: nat)
    requires AllHeld(s) && Enabled(s, Check(i))
    ensures AllHeld(Next(s, Check(i)))
  {
    hide OnHand;
    match TurnOf(s.pool) {
      case Take => TakeHeld(s.workers, i, s.pool.queue[0], s.started, s.finished);
      case Sleep => KeepHeld(s.workers, i, Asleep, s.started, s.finished);
      case Leave => KeepHeld(s.workers, i, Exited, s.started, s.finished);
    }
  }

  lemma WakeHeld(workers: seq<Phase>, started: seq<Job>, finished: seq<Job>)
    requires OnHand(started, workers, finished)
    ensures OnHand(started, WakeAll(workers), finished)
  {
    HeldWake(workers);
  }

  lemma NextWorking(s: State, step: Step)
    requires Enabled(s, step) && s.pool.working == Total(s.workers, Busy)
    ensures Next(s, step).pool.working == Total(Next(s, step).workers, Busy)
  {
    hide Total, WakeAll;
    TotalWake(s.workers, Busy);
    if step.Check? || step.Wake? || step.Return? || step.Finish? {
      TotalUpdate(s.workers, Busy, step.i, Next(s, step).workers[step.i]);
    }
  }

  lemma NextThreads(s: State, step: Step)
    requires Enabled(s, step) && s.pool.threads == Total(s.workers, Alive)
    ensures Next(s, step).pool.threads == Total(Next(s, step).workers, Alive)
    ensures |Next(s, step).workers| == |s.workers|
  {
    hide Total, WakeAll;
    TotalWake(s.workers, Alive);
    if step.Check? || step.Wake? || step.Return? || step.Finish? {
      TotalUpdate(s.workers, Alive, step.i, Next(s, step).workers[step.i]);
    }
  }

  lemma NextWakeUps(s: State, step: Step)
    requires Inv(s) && Enabled(s, step)
    ensures WakeUpsKept(Next(s, step))
  {
    hide Held, Total;
    NextWorking(s, step);
    NextThreads(s, step);
  }

  lemma NextLifeCycle(s: State, step: Step)
    requires Inv(s) && Enabled(s, step)
    ensures LifeCycle(Next(s, step))
  {
    hide Held, Total;
    if step.Check? {
      TotalAtLeast(s.workers, Alive, step.i);
    }
  }

  lemma NextInv(s: State, step: Step)
    requires Inv(s) && Enabled(s, step)
    ensures Inv(Next(s, step))
  {
    hide Next, Enabled, Total;
    NextQueue(s, step);
    NextHeld(s, step);
    NextWorking(s, step);
    NextThreads(s, step);
    NextWakeUps(s, step);
    NextLifeCycle(s, step);
  }

  // Every state of every run satisfies the invariant.
  lemma {:induction false} RunInv(s: State, run: seq<Step>)
    requires Inv(s) && Possible(s, run)
    ensures Inv(After(s, run))
    decreases |run|
  {
    if run != [] {
      NextInv(s, run[0]);
      RunInv(Next(s, run[0]), run[1..]);
    }
  }
}
