/**
  The pool and the invalidation consumer as objects, run by a scheduler that lets one goroutine at a time
  take a turn. Tasks are the cleaner's: delete one key from the local cache.
 */
module WorkerPool {
  import opened Base
  import opened Customers
  import opened PoolProtocol
  import opened Stores

  /** Nothing new and nothing changed in a store that was only deleted from. */
  ghost predicate Shrunk(before: map<string, Value>, after: map<string, Value>)
  {
    forall k :: k in after ==> k in before && after[k] == before[k]
  }

  /** What a Do comes to: a nil task, a task sent or dropped, a panic, or a wait that only a Start can end. */
  datatype DoOutcome = Nothing | Sent | Dropped | Panicked | Waiting

  class Pool {
    const numberWorker: nat
    const lc: LocalCache
    var state: nat
    var cancelled: bool
    var closed: bool
    var queue: seq<string>
    var workers: nat
    var wg: nat
    /** The result each executed task sent, in order: whether it was an error. */
    var results: seq<bool>
    /** The tasks executed so far, in order, and the keys whose latest delete was given up on. */
    ghost var done: seq<string>
    ghost var lost: set<string>

    ghost predicate Valid()
      reads this
    {
      && numberWorker >= 1 && state <= 2 && |queue| <= numberWorker && |results| == |done|
      && (closed <==> state == 2) && (closed ==> cancelled)
      && (state == 0 ==> workers == 0 && wg == 0)
      && (state == 1 ==> workers == numberWorker && wg == numberWorker)
    }

    constructor (number: int, numCPU: nat, lc: LocalCache)
      requires numCPU >= 1
      ensures Valid() && state == 0 && queue == [] && lost == {} && done == [] && this.lc == lc
      ensures !cancelled
    {
      numberWorker := Normalize(number, numCPU);
      this.lc := lc;
      state, cancelled, closed, queue, workers, wg := 0, false, false, [], 0, 0;
      results, done, lost := [], [], {};
    }

    method Start()
      requires Valid()
      modifies this
      ensures Valid() && state == (if old(state) == 0 then 1 else old(state))
      ensures queue == old(queue) && lost == old(lost) && cancelled == old(cancelled)
      ensures done == old(done) && results == old(results)
      ensures old(state) != 0 ==> workers == old(workers)
    {
      if state == 0 {
        state := 1;
        wg := numberWorker;
        workers := 0;
        for i := 0 to numberWorker
          invariant workers == i && wg == numberWorker && state == 1 && closed == old(closed)
          invariant queue == old(queue) && lost == old(lost) && cancelled == old(cancelled)
          invariant done == old(done) && results == old(results)
        {
          workers := workers + 1;
        }
      }
    }

    /** The cleaner's executor: up to three attempts to delete, stopping at the first that succeeds. */
    method Clean(key: string) returns (failed: bool)
      modifies lc
      ensures failed ==> lc.store == old(lc.store) && lc.faults == old(lc.faults) + 3
      ensures !failed ==> lc.store == old(lc.store) - {key} && old(lc.faults) <= lc.faults <= old(lc.faults) + 2
    {
      failed := true;
      var attempts := 0;
      while failed && attempts < 3
        invariant attempts <= 3
        invariant failed ==> lc.store == old(lc.store) && lc.faults == old(lc.faults) + attempts
        invariant !failed ==> lc.store == old(lc.store) - {key}
        invariant !failed ==> attempts >= 1 && lc.faults == old(lc.faults) + attempts - 1
      {
        failed := lc.Delete(key);
        attempts := attempts + 1;
      }
    }

    /**
      A worker's turn: receive the oldest task, execute it and send its one result, which is an error exactly
      when all three attempts failed.
     */
    method Turn()
      requires Valid() && queue != [] && state != 0 && lc as object != this
      modifies this`queue, this`done, this`results, this`lost, lc
      ensures Valid() && queue == old(queue)[1..] && done == old(done) + [old(queue)[0]]
      ensures |results| == |old(results)| + 1 && results[..|old(results)|] == old(results)
      ensures var failed := results[|old(results)|];
              && (failed ==> lc.faults == old(lc.faults) + 3)
              && (!failed ==> old(lc.faults) <= lc.faults <= old(lc.faults) + 2)
              && lc.store == (if failed then old(lc.store) else old(lc.store) - {old(queue)[0]})
              && lost == (if failed then old(lost) + {old(queue)[0]} else old(lost) - {old(queue)[0]})
    {
      var key := queue[0];
      queue := queue[1..];
      var failed := Clean(key);
      done := done + [key];
      results := results + [failed];
      lost := if failed then lost + {key} else lost - {key};
    }

    /**
      Every key that was covered by a queued task or a recorded loss still is, or its entry is gone. Without
      faults no loss is added, and a task that has left the queue has cleared the loss of its key.
     */
    twostate predicate KeepsCover()
      reads this, lc
    {
      && Shrunk(old(lc.store), lc.store) && old(results) <= results
      && (forall k :: k in old(queue) || k in old(lost) ==> k in queue || k in lost || k !in lc.store)
      && (lc.faults >= old(lc.faults))
      && (lc.faults == old(lc.faults) && !cancelled ==>
            lost <= old(lost) && forall k :: k in old(queue) && k in lost ==> k in queue)
    }

    /**
      While the queue is full and the context alive, Do waits for a worker to make room; on a full pool that
      nobody has started it waits until somebody does. Once the context is cancelled its select may still
      choose to send when there is room, and on a closed queue it may choose the send that panics; send says
      what the runtime chooses when both cases are ready.
     */
    method Do(task: Option<string>, send: bool) returns (out: DoOutcome)
      requires Valid() && lc as object != this
      modifies this`queue, this`done, this`results, this`lost, lc
      ensures Valid() && KeepsCover()
      ensures out.Nothing? <==> task.None?
      ensures out.Waiting? <==> task.Some? && state == 0 && old(|queue|) == numberWorker && !cancelled
      ensures out.Panicked? <==> task.Some? && closed && send
      ensures out.Dropped? <==> task.Some? && cancelled && (!send || (!closed && old(|queue|) == numberWorker))
      ensures out.Dropped? || out.Panicked? ==> cancelled && lost == old(lost) + {task.value}
      ensures out.Sent? ==> done + queue == old(done) + old(queue) + [task.value] && task.value in queue && !closed
      ensures !out.Sent? ==> queue == old(queue) && done == old(done) && lc.store == old(lc.store)
      ensures out.Nothing? || out.Waiting? ==> lost == old(lost)
    {
      if task.None? { return Nothing; }
      if state == 0 && |queue| == numberWorker && !cancelled { return DoOutcome.Waiting; }
      while |queue| == numberWorker && !cancelled
        invariant Valid() && KeepsCover() && done + queue == old(done) + old(queue)
        invariant cancelled ==>
          queue == old(queue) && done == old(done) && lost == old(lost) && lc.store == old(lc.store)
        decreases |queue|
      {
        label turn:
        Turn();
        assert done + queue == old@turn(done) + old@turn(queue);
      }
      if cancelled && (!send || (!closed && |queue| == numberWorker)) {
        lost := lost + {task.value};
        return DoOutcome.Dropped;
      }
      if closed {
        lost := lost + {task.value};
        return Panicked;
      }
      queue := queue + [task.value];
      out := Sent;
    }

    /**
      Stop. The call that wins its compare-and-swap cancels the context, closes the queue and waits while
      the workers execute everything queued, oldest first; then no worker is left. A pool that was never
      started drains nothing, and a second Stop does nothing.
     */
    method Stop()
      requires Valid() && lc as object != this
      modifies this, lc
      ensures Valid() && state == 2
      ensures old(state) == 1 ==> queue == [] && wg == 0 && done == old(done) + old(queue)
      ensures old(state) == 2 ==> queue == old(queue) && done == old(done) && lc.store == old(lc.store)
      ensures KeepsCover()
      ensures old(state) == 0 ==> queue == old(queue) && lc.store == old(lc.store)
    {
      if state == 1 || state == 0 {
        state, cancelled, closed := 2, true, true;
        Wait();
      }
    }

    /** wg.Wait: the workers drain the closed queue, then each one leaves. */
    method Wait()
      requires Valid() && state == 2 && lc as object != this
      modifies this, lc
      ensures Valid() && state == 2 && cancelled
      ensures wg == 0
      ensures old(wg) > 0 ==> queue == [] && done == old(done) + old(queue)
      ensures KeepsCover()
      ensures old(wg) == 0 ==> lc.store == old(lc.store) && queue == old(queue)
    {
      while wg > 0
        invariant Valid() && state == 2 && cancelled
        invariant done + queue == old(done) + old(queue)
        invariant KeepsCover()
        invariant wg < old(wg) ==> queue == []
        invariant wg <= old(wg)
        invariant old(wg) == 0 ==> lc.store == old(lc.store) && queue == old(queue)
        decreases wg, |queue|
      {
        if queue != [] {
          label turn:
          Turn();
          assert done + queue == old@turn(done) + old@turn(queue);
        } else {
          wg := wg - 1;
        }
      }
    }
  }
}
