// core/src/server/thread_pool.cc: the linked queue and the critical sections, one method each.
module ThreadPools {
  import opened PoolSpec

  // A queued job.
  class Worker {
    const fn: nat
    const arg: nat
    var next: Worker?

    constructor (fn: nat, arg: nat)
      ensures this.fn == fn && this.arg == arg && next == null
    {
      this.fn, this.arg, this.next := fn, arg, null;
    }
  }

  // pthread_cond_broadcast on worker_cond, pthread_cond_signal on working_cond.
  datatype Call = BroadcastWorkers | SignalWaiter

  class ThreadPool {
    var head: Worker?
    var tail: Worker?
    var workingCount: int
    var threadCount: int
    var shutdown: bool

    // The calls made on the condition variables.
    var calls: seq<Call>

    // The nodes from head on, and those handed to worker_destroy by Destroy.
    ghost var nodes: seq<Worker>
    ghost var released: seq<Worker>

    ghost predicate Valid()
      reads this, nodes
    {
      && (head == null <==> nodes == [])
      && (tail == null <==> nodes == [])
      && (nodes != [] ==> head == nodes[0] && tail == nodes[|nodes| - 1] && tail.next == null)
      && (forall i | 0 <= i < |nodes| - 1 :: nodes[i].next == nodes[i + 1])
      && (forall i, j | 0 <= i < j < |nodes| :: nodes[i] != nodes[j])
    }

    ghost function View(): Pool<Worker>
      reads this
    {
      Pool(nodes, workingCount, threadCount, shutdown)
    }

    constructor (num: nat)
      ensures Valid() && View() == Created(num) && calls == [] && released == []
      ensures workingCount == 0 && threadCount == (if num == 0 then 2 else num) && !shutdown
    {
      head, tail, shutdown := null, null, false;
      workingCount, threadCount := 0, if num == 0 then 2 else num;
      calls, nodes, released := [], [], [];
    }

    method Add(fn: nat, arg: nat) returns (ok: bool)
      requires Valid()
      modifies this, nodes
      ensures Valid() && ok
      ensures nodes != [] && fresh(nodes[|nodes| - 1]) && nodes[|nodes| - 1].fn == fn && nodes[|nodes| - 1].arg == arg
      ensures View() == Added(old(View()), nodes[|nodes| - 1])
      ensures calls == old(calls) + [BroadcastWorkers] && released == old(released)
    {
      var worker := new Worker(fn, arg);
      if head == null {
        head := worker;
        tail := head;
      } else {
        tail.next := worker;
        tail := worker;
      }
      nodes := nodes + [worker];
      calls := calls + [BroadcastWorkers];
      ok := true;
    }

    // get_worker; null when nothing is queued.
    method GetWorker() returns (worker: Worker?)
      requires Valid()
      modifies `head, `tail, `nodes
      ensures Valid()
      ensures old(nodes) == [] ==> worker == null && nodes == []
      ensures old(nodes) != [] ==> worker == old(nodes[0]) && nodes == old(nodes)[1..]
    {
      worker := head;
      if worker == null {
        return null;
      }
      assert |nodes| > 1 ==> nodes[0].next == nodes[1];
      if worker.next == null {
        head := null;
        tail := null;
      } else {
        head := worker.next;
      }
      nodes := nodes[1..];
    }

    // The top of the loop of a worker, under the mutex: sleep, leave or take a job.
    method TakeTurn() returns (turn: Turn, worker: Worker?)
      requires Valid()
      modifies `head, `tail, `nodes, `workingCount, `threadCount, `calls
      ensures Valid()
      ensures turn == TurnOf(old(View()))
      ensures View() == match turn
                        case Sleep => old(View())
                        case Leave => Left(old(View()))
                        case Take => Taken(old(View()))
      ensures turn.Take? ==> worker == old(nodes)[0]
      ensures calls == old(calls) + (if turn.Leave? then [SignalWaiter] else [])
    {
      worker := null;
      if head == null && !shutdown {
        return Sleep, null;
      }
      if shutdown {
        threadCount := threadCount - 1;
        calls := calls + [SignalWaiter];
        return Leave, null;
      }
      worker := GetWorker();
      workingCount := workingCount + 1;
      turn := Take;
    }

    // After a job, under the mutex.
    method FinishTurn()
      requires Valid()
      modifies `workingCount, `calls
      ensures Valid() && View() == Finished(old(View()))
      ensures calls == old(calls) + (if !shutdown && workingCount == 0 && nodes == [] then [SignalWaiter] else [])
    {
      workingCount := workingCount - 1;
      if !shutdown && workingCount == 0 && head == null {
        calls := calls + [SignalWaiter];
      }
    }

    // The critical section of thread_pool_destroy: every queued node is released, once and in order.
    method Destroy()
      requires Valid()
      modifies `shutdown, `calls, `released
      ensures Valid() && View() == ShutDown(old(View()))
      ensures released == old(released) + nodes
      ensures calls == old(calls) + [BroadcastWorkers]
    {
      ghost var before := released;
      var worker1 := head;
      ghost var k := 0;
      while worker1 != null
        invariant 0 <= k <= |nodes| && Valid() && calls == old(calls) && shutdown == old(shutdown)
        invariant worker1 == (if k < |nodes| then nodes[k] else null)
        invariant released == before + nodes[..k]
        decreases |nodes| - k
      {
        var worker2 := worker1.next;
        released := released + [worker1];
        worker1 := worker2;
        k := k + 1;
      }
      shutdown := true;
      calls := calls + [BroadcastWorkers];
    }
  }
}
