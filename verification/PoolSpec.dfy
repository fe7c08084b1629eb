// The thread pool: what each critical section of core/src/server/thread_pool.cc does to the fields
// that worker_mutex protects.
module PoolSpec {

  // queue is what can be reached from head; working is a counter without sign in the source, and
  // PoolProtocol shows that it never goes below zero.
  datatype Pool<T> = Pool(queue: seq<T>, working: int, threads: int, shutdown: bool)

  // What a worker does after taking the mutex at the top of its loop.
  datatype Turn = Sleep | Leave | Take

  function Created<T>(num: nat): Pool<T>
  {
    Pool([], 0, if num == 0 then 2 else num, false)
  }

  function Added<T>(p: Pool<T>, job: T): Pool<T>
  {
    p.(queue := p.queue + [job])
  }

  function TurnOf<T>(p: Pool<T>): Turn
  {
    if p.shutdown then Leave else if p.queue == [] then Sleep else Take
  }

  function Taken<T>(p: Pool<T>): Pool<T>
    requires p.queue != []
  {
    p.(queue := p.queue[1..], working := p.working + 1)
  }

  function Left<T>(p: Pool<T>): Pool<T>
  {
    p.(threads := p.threads - 1)
  }

  function Finished<T>(p: Pool<T>): Pool<T>
  {
    p.(working := p.working - 1)
  }

  // After a job: whether working_cond is signalled.
  predicate Idle<T>(p: Pool<T>)
  {
    !p.shutdown && p.working == 0 && p.queue == []
  }

  // head is left as it is, although its nodes are released.
  function ShutDown<T>(p: Pool<T>): Pool<T>
  {
    p.(shutdown := true)
  }

  // The test of thread_pool_wait.
  predicate MustWait<T>(p: Pool<T>)
  {
    (!p.shutdown && p.working != 0) || (p.shutdown && p.threads != 0)
  }
}
