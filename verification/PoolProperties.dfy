// What holds of every run of a thread pool, whatever the interleaving.
module PoolProperties {
  import opened PoolProtocol

  ghost predicate Reachable(s: State)
  {
    exists num, run :: Possible(Init(num), run) && After(Init(num), run) == s
  }

  lemma ReachableInv(s: State)
    requires Reachable(s)
    ensures Inv(s)
  {
    var num, run :| Possible(Init(num), run) && After(Init(num), run) == s;
    InitInv(num);
    RunInv(Init(num), run);
  }

  // ---------------------------------------------------------------- jobs

  // Jobs that can still be taken.
  function Pending(s: State): seq<Job>
  {
    if s.pool.shutdown then [] else s.pool.queue
  }

  // Every submitted job is in exactly one place: queued, with a worker, finished or discarded.
  lemma JobsArePartitioned(s: State)
    requires Reachable(s)
    ensures multiset(s.submitted) == multiset(Pending(s)) + Held(s.workers) + multiset(s.finished)
            + multiset(s.discarded)
    ensures forall job :: job in multiset(s.submitted) ==> multiset(s.submitted)[job] == 1
  {
    ReachableInv(s);
    assert multiset(s.submitted) == multiset(s.started) + multiset(s.pool.queue);
    forall job | job in multiset(s.submitted)
      ensures multiset(s.submitted)[job] == 1
    {
      NumberedOnce(s.submitted, job);
    }
  }

  lemma {:induction false} NumberedOnce(jobs: seq<Job>, job: Job)
    requires forall k | 0 <= k < |jobs| :: jobs[k].number == k
    ensures multiset(jobs)[job] <= 1
    decreases |jobs|
  {
    if jobs != [] {
      var n := |jobs| - 1;
      NumberedOnce(jobs[..n], job);
      assert jobs == jobs[..n] + [jobs[n]];
      if job == jobs[n] {
        assert job !in jobs[..n];
      }
    }
  }

  // What has been added in a run has been submitted, with its function and its argument, and is numbered by
  // its place.
  lemma {:induction false} AddedIsSubmitted(s: State, run: seq<Step>, k: nat)
    requires Possible(s, run) && k < |run| && run[k].Add?
    ensures exists j | 0 <= j < |After(s, run).submitted| ::
              After(s, run).submitted[j] == Job(j, run[k].fn, run[k].arg)
    decreases |run|
  {
    var t := Next(s, run[0]);
    if k > 0 {
      AddedIsSubmitted(t, run[1..], k - 1);
    } else {
      var j := |s.submitted|;
      SubmittedStays(t, run[1..], j);
      assert After(s, run).submitted[j] == Job(j, run[k].fn, run[k].arg);
    }
  }

  lemma {:induction false} SubmittedStays(s: State, run: seq<Step>, j: nat)
    requires Possible(s, run) && j < |s.submitted|
    ensures j < |After(s, run).submitted| && After(s, run).submitted[j] == s.submitted[j]
    decreases |run|
  {
    if run != [] {
      SubmittedStays(Next(s, run[0]), run[1..], j);
    }
  }

  // Jobs are taken in the order of submission, each at most once, and what is discarded is what has
  // not been taken by then.
  lemma StartedInSubmissionOrder(s: State)
    requires Reachable(s)
    ensures |s.started| <= |s.submitted| && s.started == s.submitted[..|s.started|]
    ensures forall i, j | 0 <= i < j < |s.started| :: s.started[i] != s.started[j]
    ensures s.pool.shutdown ==> s.discarded == s.submitted[|s.started|..]
  {
    ReachableInv(s);
    forall i, j | 0 <= i < j < |s.started|
      ensures s.started[i] != s.started[j]
    {
      assert s.started[i] == s.submitted[i] && s.started[j] == s.submitted[j];
    }
  }

  // The counters are exact; in particular working_count never wraps below zero.
  lemma CountersAreExact(s: State)
    requires Reachable(s)
    ensures s.pool.working == |Held(s.workers)|
    ensures s.pool.threads == |set i | 0 <= i < |s.workers| && !s.workers[i].Exited?|
  {
    ReachableInv(s);
    HeldCount(s.workers);
    AliveCount(s.workers);
  }

  function AliveWorkers(workers: seq<Phase>): set<int>
  {
    set i | 0 <= i < |workers| && !workers[i].Exited?
  }

  lemma {:induction false} AliveCount(workers: seq<Phase>)
    ensures |AliveWorkers(workers)| == Total(workers, Alive)
    decreases |workers|
  {
    if workers != [] {
      var n := |workers| - 1;
      AliveCount(workers[..n]);
      TotalSnoc(workers[..n], workers[n]);
      assert workers == workers[..n] + [workers[n]];
      assert AliveWorkers(workers) == AliveWorkers(workers[..n]) + (if workers[n].Exited? then {} else {n});
    }
  }

  lemma {:induction false} TotalSnoc(workers: seq<Phase>, w: Phase)
    ensures Total(workers + [w], Alive) == Total(workers, Alive) + Alive(w)
    decreases |workers|
  {
    if workers != [] {
      assert (workers + [w])[1..] == workers[1..] + [w];
      TotalSnoc(workers[1..], w);
    }
  }

  // ---------------------------------------------------------------- no lost wake-ups

  lemma NoLostWakeUps(s: State)
    requires Reachable(s)
    ensures (exists i | 0 <= i < |s.workers| :: s.workers[i].Asleep?) ==> s.pool.queue == [] && !s.pool.shutdown
    ensures s.caller.Waiting? && !s.pool.shutdown ==> Held(s.workers) != multiset{} || s.pool.queue != []
    ensures s.caller.Waiting? && s.pool.shutdown ==> exists i | 0 <= i < |s.workers| :: !s.workers[i].Exited?
  {
    ReachableInv(s);
    HeldCount(s.workers);
    if s.caller.Waiting? && s.pool.shutdown {
      TotalZero(s.workers, Alive);
    }
  }

  // ---------------------------------------------------------------- progress

  // A step of the loop of a worker, other than waking for no reason.
  predicate IsWork(step: Step) { step.Check? || step.Return? || step.Finish? }

  // No worker can make a step of its loop.
  predicate Quiet(s: State)
  {
    forall i | 0 <= i < |s.workers| :: s.workers[i].Asleep? || s.workers[i].Exited?
  }

  lemma QuietMeansNoWork(s: State)
    ensures Quiet(s) <==> forall step: Step | IsWork(step) :: !Enabled(s, step)
  {
    if !Quiet(s) {
      var i :| 0 <= i < |s.workers| && !s.workers[i].Asleep? && !s.workers[i].Exited?;
      assert Enabled(s, Check(i)) || Enabled(s, Return(i)) || Enabled(s, Finish(i));
    }
  }

  // Work still to be done, in worker steps.
  function Load(s: State): nat
  {
    3 * |Pending(s)| + Total(s.workers, Rank)
  }

  lemma WorkLowersLoad(s: State, step: Step)
    requires Inv(s) && Enabled(s, step) && IsWork(step)
    ensures Load(Next(s, step)) < Load(s)
  {
    hide Total;
    TotalUpdate(s.workers, Rank, step.i, Next(s, step).workers[step.i]);
  }

  // Between submissions, spurious wake-ups and the call of thread_pool_destroy.
  predicate Undisturbed(run: seq<Step>)
  {
    forall k | 0 <= k < |run| :: !run[k].Add? && !run[k].Wake? && !run[k].Destroy?
  }

  function WorkSteps(run: seq<Step>): nat
  {
    if run == [] then 0 else (if IsWork(run[0]) then 1 else 0) + WorkSteps(run[1..])
  }

  lemma OthersKeepLoad(s: State, step: Step)
    requires Inv(s) && Enabled(s, step) && !IsWork(step) && !step.Add? && !step.Wake? && !step.Destroy?
    ensures Load(Next(s, step)) == Load(s)
  {
    hide Total, Held;
  }

  // The load is a termination measure for the workers.
  lemma {:induction false} WorkIsBounded(s: State, run: seq<Step>)
    requires Inv(s) && Possible(s, run) && Undisturbed(run)
    ensures WorkSteps(run) + Load(After(s, run)) <= Load(s)
    decreases |run|
  {
    hide Inv, Enabled, Next, Load;
    if run != [] {
      NextInv(s, run[0]);
      if IsWork(run[0]) {
        WorkLowersLoad(s, run[0]);
      } else {
        OthersKeepLoad(s, run[0]);
      }
      WorkIsBounded(Next(s, run[0]), run[1..]);
    }
  }

  // When the workers have nothing left to do, every job is finished and nobody who waits for them is
  // left asleep.
  lemma QuietMeansDone(s: State)
    requires Reachable(s) && !s.pool.shutdown && Quiet(s)
    ensures s.pool.queue == [] && s.pool.working == 0
    ensures multiset(s.finished) == multiset(s.submitted)
    ensures !s.caller.Waiting?
  {
    ReachableInv(s);
    assert s.workers[0].Asleep?;
    if Total(s.workers, Busy) > 0 {
      TotalZero(s.workers, Busy);
    }
    HeldCount(s.workers);
    assert s.submitted == s.started;
  }

  // ---------------------------------------------------------------- shutdown

  // Once shutdown is set it stays set, no job is taken and no discarded job ever runs.
  lemma {:induction false} NothingStartsAfterShutdown(s: State, run: seq<Step>)
    requires Inv(s) && s.pool.shutdown && Possible(s, run)
    ensures After(s, run).pool.shutdown && Undisturbed(run)
    ensures After(s, run).started == s.started && After(s, run).discarded == s.discarded
    ensures forall job :: job in s.discarded ==> job !in After(s, run).started
    decreases |run|
  {
    hide Inv, Enabled, Next;
    if run != [] {
      NextInv(s, run[0]);
      AfterShutdown(s, run[0]);
      NothingStartsAfterShutdown(Next(s, run[0]), run[1..]);
    } else {
      forall job | job in s.discarded
        ensures job !in s.started
      {
        NotBoth(s, job);
      }
    }
  }

  // One step of such a run.
  lemma AfterShutdown(s: State, step: Step)
    requires Inv(s) && s.pool.shutdown && Enabled(s, step)
    ensures var t := Next(s, step);
            && t.pool.shutdown && !step.Add? && !step.Wake? && !step.Destroy?
            && t.started == s.started && t.discarded == s.discarded && |t.workers| == |s.workers|
    ensures forall i | 0 <= i < |s.workers| ::
              (if IsWork(step) && step.i == i then 1 else 0) + Rank(Next(s, step).workers[i]) <= Rank(s.workers[i])
  {
    hide Total, Held;
  }

  lemma NotBoth(s: State, job: Job)
    requires Inv(s) && job in s.discarded
    ensures job !in s.started
  {
    var j :| 0 <= j < |s.discarded| && s.discarded[j] == job;
    assert s.submitted[|s.started| + j] == job;
    forall i | 0 <= i < |s.started|
      ensures s.started[i] != job
    {
      assert s.submitted[i] == s.started[i];
    }
  }

  function StepsOf(run: seq<Step>, i: nat): nat
  {
    if run == [] then 0 else (if IsWork(run[0]) && run[0].i == i then 1 else 0) + StepsOf(run[1..], i)
  }

  lemma {:induction false} StepsLowerRank(s: State, run: seq<Step>, i: nat)
    requires Inv(s) && s.pool.shutdown && Possible(s, run) && i < |s.workers|
    ensures |After(s, run).workers| == |s.workers|
    ensures StepsOf(run, i) + Rank(After(s, run).workers[i]) <= Rank(s.workers[i])
    decreases |run|
  {
    hide Inv, Enabled, Next;
    if run != [] {
      NextInv(s, run[0]);
      AfterShutdown(s, run[0]);
      StepsLowerRank(Next(s, run[0]), run[1..], i);
    }
  }

  // From the call of thread_pool_destroy on, each worker makes at most three steps, in every run.
  lemma ShutdownIsBounded(s: State, run: seq<Step>, i: nat)
    requires Inv(s) && s.pool.shutdown && Possible(s, run) && i < |s.workers|
    ensures StepsOf(run, i) <= 3 && WorkSteps(run) <= 3 * |s.workers|
  {
    StepsLowerRank(s, run, i);
    NothingStartsAfterShutdown(s, run);
    WorkIsBounded(s, run);
    RankAtMost3(s.workers);
  }

  lemma {:induction false} RankAtMost3(workers: seq<Phase>)
    ensures Total(workers, Rank) <= 3 * |workers|
    decreases |workers|
  {
    if workers != [] {
      RankAtMost3(workers[1..]);
    }
  }

  // When no worker can make a step any more, all have left and thread_pool_destroy goes through.
  lemma ShutdownReachesFree(s: State)
    requires Reachable(s) && s.pool.shutdown && Quiet(s)
    ensures s.pool.threads == 0 && forall i | 0 <= i < |s.workers| :: s.workers[i].Exited?
    ensures s.caller.Freed? || s.caller.Freeing? || (s.caller == Testing(true) && Next(s, Test).caller.Freeing?)
  {
    ReachableInv(s);
    if Total(s.workers, Alive) > 0 {
      TotalZero(s.workers, Alive);
    }
  }

  // While shutting down, a worker that has not left can make a step: the pool is never stuck.
  lemma ShutdownIsNeverStuck(s: State)
    requires Reachable(s) && s.pool.shutdown && !s.caller.Freed?
    ensures s.caller.Waiting? ==> exists step: Step :: IsWork(step) && Enabled(s, step)
    ensures exists step: Step :: !step.WakeCaller? && Enabled(s, step)
  {
    ReachableInv(s);
    if s.caller.Waiting? {
      TotalZero(s.workers, Alive);
      var i :| 0 <= i < |s.workers| && !s.workers[i].Exited?;
      assert Enabled(s, Check(i)) || Enabled(s, Return(i)) || Enabled(s, Finish(i));
    } else {
      assert Enabled(s, Test) || Enabled(s, Free);
    }
  }

  // The pool is freed only when no thread can touch it again: nothing is possible afterwards.
  lemma FreedPoolIsUntouched(s: State)
    requires Reachable(s)
    ensures s.caller.Freeing? || s.caller.Freed? ==>
              s.pool.threads == 0 && Held(s.workers) == multiset{}
              && forall i | 0 <= i < |s.workers| :: s.workers[i].Exited?
    ensures s.caller.Freed? ==> forall step: Step :: !Enabled(s, step)
  {
    ReachableInv(s);
    if s.caller.Freeing? || s.caller.Freed? {
      forall i | 0 <= i < |s.workers|
        ensures s.workers[i].Exited?
      {
        TotalAtLeast(s.workers, Alive, i);
      }
      if Held(s.workers) != multiset{} {
        var job :| job in Held(s.workers);
        HeldBySomeone(s.workers, job);
      }
    }
  }

  // ---------------------------------------------------------------- thread_pool_wait

  // A call of thread_pool_wait, in any run: from its first test to the step that lets it go.
  predicate WaitCall(s: State, run: seq<Step>)
    decreases |run|
  {
    && |run| > 0 && Possible(s, run) && (s.caller.Testing? || s.caller.Waiting?)
    && if |run| == 1 then run[0].Test? && !Next(s, run[0]).caller.Waiting? else WaitCall(Next(s, run[0]), run[1..])
  }

  // When thread_pool_wait returns: after destroy no thread is left, before it no worker holds a job;
  // and that is the only thing it waits for.
  lemma WaitReturns(s: State)
    requires Reachable(s) && s.caller.Testing?
    ensures !Next(s, Test).caller.Waiting?
       <==> if s.caller.destroying then forall i | 0 <= i < |s.workers| :: s.workers[i].Exited?
            else Held(s.workers) == multiset{}
  {
    ReachableInv(s);
    HeldCount(s.workers);
    if Total(s.workers, Alive) > 0 {
      TotalZero(s.workers, Alive);
    }
    forall i | 0 <= i < |s.workers| && !s.workers[i].Exited?
      ensures Total(s.workers, Alive) > 0
    {
      TotalAtLeast(s.workers, Alive, i);
    }
  }

  // The same for a whole call, whatever the other threads do meanwhile.
  lemma {:induction false} AfterWaitCall(s: State, run: seq<Step>)
    requires Inv(s) && WaitCall(s, run)
    ensures var t := After(s, run);
            && (t.caller.Away? || t.caller.Freeing?)
            && (t.caller.Away? ==> Held(t.workers) == multiset{})
            && (t.caller.Freeing? ==> t.pool.threads == 0)
    decreases |run|
  {
    hide Total, Held;
    NextInv(s, run[0]);
    if |run| > 1 {
      AfterWaitCall(Next(s, run[0]), run[1..]);
    } else {
      HeldCount(s.workers);
      assert run[1..] == [];
    }
  }

  // It may return although a job is queued: the workers have not taken it yet.
  lemma WaitMayMissAQueuedJob()
    ensures var run := [Add(7, 8), Wait, Test];
            && Possible(Init(2), run)
            && After(Init(2), run).caller.Away?
            && After(Init(2), run).pool.queue == [Job(0, 7, 8)]
  {
    var s0 := Init(2);
    var s1 := Next(s0, Add(7, 8));
    var s2 := Next(s1, Wait);
    var s3 := Next(s2, Test);
    assert [Add(7, 8), Wait, Test][1..] == [Wait, Test] && [Wait, Test][1..] == [Test] && [Test][1..] == [];
    assert Possible(s3, []) && Possible(s2, [Test]) && Possible(s1, [Wait, Test]);
    assert After(s2, [Test]) == s3 && After(s1, [Wait, Test]) == s3;
  }
}
