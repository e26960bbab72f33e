/** What a call or a worker of the pool may do next, exactly, and a run from Start to the return of Stop. */
module PoolSteps {
  import opened PoolProtocol
  import opened PoolTheorems
  import opened PoolRuns

  /**
    The select of Do. It may send exactly when there is room, and then the task goes to the end of the queue;
    it may drop exactly when the context is cancelled; it parks exactly when neither is so; on a closed queue
    it may panic; and nothing else can come of it. So it always comes to something.
   */
  lemma SelectExactly(p: Pool, c: nat, op: CallOp)
    requires !p.crashed && c in p.calls && p.calls[c].Selecting?
    ensures Enabled(p, Step(c, op)) <==>
            || (op.SelectSend? && (p.closed || |p.queue| < p.n))
            || (op.SelectDone? && p.cancelled)
            || (op.Park? && !p.cancelled && !p.closed && p.n <= |p.queue|)
    ensures op.SelectSend? && !p.closed && |p.queue| < p.n ==>
              var t := p.calls[c].t;
              Next(p, Step(c, op)) ==
              p.(queue := p.queue + [t], accepted := p.accepted + [t], calls := p.calls[c := Accepted(t)])
    ensures op.SelectSend? && p.closed ==> Next(p, Step(c, op)).crashed
    ensures op.SelectDone? && p.cancelled ==> Next(p, Step(c, op)) == p.(calls := p.calls[c := Dropped(p.calls[c].t)])
    ensures op.Park? && Enabled(p, Step(c, op)) ==>
              Next(p, Step(c, op)) == p.(calls := p.calls[c := Parked(p.calls[c].t)])
    ensures exists o :: Enabled(p, Step(c, o))
  {
    if p.closed || |p.queue| < p.n {
      assert Enabled(p, Step(c, SelectSend));
    } else if p.cancelled {
      assert Enabled(p, Step(c, SelectDone));
    } else {
      assert Enabled(p, Step(c, Park));
    }
  }

  /** While the pool is open and there is room, a Do at its select is bound to send its task. */
  lemma DoSendsWhileOpen(p: Pool, c: nat)
    requires !p.crashed && c in p.calls && p.calls[c].Selecting?
    requires !p.closed && !p.cancelled && |p.queue| < p.n
    ensures exists op :: Enabled(p, Step(c, op))
    ensures forall op :: Enabled(p, Step(c, op)) ==>
              var q := Next(p, Step(c, op));
              q.queue == p.queue + [p.calls[c].t] && q.calls[c] == Accepted(p.calls[c].t) && !q.crashed
  {
    SelectExactly(p, c, SelectSend);
    forall op | Enabled(p, Step(c, op)) ensures op.SelectSend? { SelectExactly(p, c, op); }
  }

  /** A parked Do goes on exactly when there is room, and then sends; or it is dropped by the cancellation. */
  lemma ParkedGoesOnExactly(p: Pool, c: nat, op: CallOp)
    requires !p.crashed && c in p.calls && p.calls[c].Parked?
    ensures Enabled(p, Step(c, op)) <==> op.Unpark? && !p.closed && |p.queue| < p.n
    ensures Enabled(p, Step(c, op)) ==>
              var t := p.calls[c].t;
              Next(p, Step(c, op)) ==
              p.(queue := p.queue + [t], accepted := p.accepted + [t], calls := p.calls[c := Accepted(t)])
    ensures Enabled(p, ParentCancel) && Next(p, ParentCancel).calls[c] == Dropped(p.calls[c].t)
  {
  }

  /** Start, Stop and Do can be called at any time, from any number of goroutines, and the parent can cancel. */
  lemma AnybodyMayCall(p: Pool, c: nat, t: nat)
    requires !p.crashed && c !in p.calls
    ensures Enabled(p, CallStart(c)) && Next(p, CallStart(c)) == p.(calls := p.calls[c := StartCas])
    ensures Enabled(p, CallStop(c)) && Next(p, CallStop(c)) == p.(calls := p.calls[c := StopCas1])
    ensures Enabled(p, CallDo(c, t)) && Next(p, CallDo(c, t)) == p.(calls := p.calls[c := Selecting(t)])
    ensures Enabled(p, ParentCancel) && Next(p, ParentCancel).cancelled
  {
  }

  ghost predicate Returned(call: Call)
  {
    call.StartDone? || call.StopDone? || call.Accepted? || call.Dropped?
  }

  ghost predicate CanStep(p: Pool, c: nat)
  {
    exists op :: Enabled(p, Step(c, op))
  }

  lemma EachCallSteps(p: Pool, c: nat, op: CallOp)
    requires !p.crashed && c in p.calls && CallEnabled(p, p.calls[c], op)
    ensures CanStep(p, c)
  {
    assert Enabled(p, Step(c, op));
  }

  lemma CallCanStep(p: Pool, c: nat)
    requires Steady(p) && !p.crashed && c in p.calls && !Returned(p.calls[c])
    requires !(p.calls[c].Parked? && p.n <= |p.queue|) && !(p.calls[c].Waiting? && p.wg != 0)
    ensures CanStep(p, c)
  {
    assert StopOrder(p, p.calls[c]);
    match p.calls[c]
    case StartCas => EachCallSteps(p, c, StartTry);
    case Adding => EachCallSteps(p, c, Add);
    case Spawning(i) =>
      assert StartWins(p, c) && CountsAt(p, p.calls[c]);
      EachCallSteps(p, c, Spawn);
    case StopCas1 => EachCallSteps(p, c, StopTry1);
    case StopCas2 => EachCallSteps(p, c, StopTry2);
    case Cancelling => EachCallSteps(p, c, Cancel);
    case Closing => EachCallSteps(p, c, Close);
    case Waiting => EachCallSteps(p, c, WaitOver);
    case Selecting(_) => SelectExactly(p, c, SelectSend);
    case Parked(_) => EachCallSteps(p, c, Unpark);
    case StartDone(_) =>
    case StopDone(_) =>
    case Accepted(_) =>
    case Dropped(_) =>
  }

  /**
    In every run, the calls that cannot step are those that have returned, a Do parked on a full queue, and a
    Stop whose wait group is not empty; everybody else can go on at once.
   */
  lemma CallsWaitExactly(run: Run, i: nat, c: nat)
    requires IsRun(run) && i < |run.states| && !run.states[i].crashed && c in run.states[i].calls
    ensures var p := run.states[i]; var call := p.calls[c];
            CanStep(p, c) <==>
            !Returned(call) && !(call.Parked? && p.n <= |p.queue|) && !(call.Waiting? && p.wg != 0)
  {
    SteadyAt(run, i);
    var p := run.states[i];
    if !Returned(p.calls[c]) && !(p.calls[c].Parked? && p.n <= |p.queue|) && !(p.calls[c].Waiting? && p.wg != 0) {
      CallCanStep(p, c);
    }
  }

  /** The workers that cannot step: those gone, those with nothing to do, and those whose result nobody has fetched. */
  lemma WorkersWaitExactly(p: Pool, w: nat)
    requires w < |p.workers|
    ensures (exists op :: WorkEnabled(p, w, op)) <==>
            match p.workers[w]
            case Idle => p.queue != [] || p.closed
            case Executing(_) => true
            case Sending(t) => t !in p.full
            case Leaving => true
            case Exited => false
  {
    match p.workers[w]
    case Idle =>
      if p.queue != [] || p.closed { assert WorkEnabled(p, w, if p.queue == [] then Leave else Receive); }
    case Executing(_) => assert WorkEnabled(p, w, Execute);
    case Sending(t) => if t !in p.full { assert WorkEnabled(p, w, Send); }
    case Leaving => assert WorkEnabled(p, w, Exit);
    case Exited =>
  }

  /** A task's channel holds its result from the send to the read. */
  lemma ChannelsHoldResults(p: Pool, l: Label, t: nat)
    requires Enabled(p, l)
    ensures t in Next(p, l).full <==>
            || (t in p.full && l != ReadResult(t))
            || (l.Work? && l.wop.Send? && p.workers[l.w].t == t)
  {
  }

  // ---- From Start to the return of Stop

  lemma WinStart() returns (p: Pool)
    ensures Reached(p) && p == NewPool(1).(life := 1, calls := map[0 := Adding])
  {
    p := Fresh(1);
    p := Take(p, CallStart(0));
    p := Take(p, Step(0, StartTry));
    assert p.calls == map[0 := Adding];
  }

  lemma StartOne() returns (p: Pool)
    ensures Reached(p) && p == NewPool(1).(life := 1, wg := 1, workers := [Idle], calls := map[0 := StartDone(true)])
  {
    p := WinStart();
    p := Take(p, Step(0, Add));
    assert p.calls == map[0 := Spawning(0)];
    p := Take(p, Step(0, Spawn));
    assert p.calls == map[0 := StartDone(true)];
  }

  lemma SendOne() returns (p: Pool)
    ensures Reached(p)
    ensures p == NewPool(1).(life := 1, wg := 1, workers := [Idle], queue := [7], accepted := [7],
                             calls := map[0 := StartDone(true), 1 := Accepted(7)])
  {
    p := StartOne();
    p := Take(p, CallDo(1, 7));
    p := Take(p, Step(1, SelectSend));
    assert p.calls == map[0 := StartDone(true), 1 := Accepted(7)];
  }

  /** A submitted task is accepted, executed, and its result is sent; and the result can be read. */
  lemma TaskIsExecuted() returns (p: Pool)
    ensures Reached(p)
    ensures p == NewPool(1).(life := 1, wg := 1, workers := [Idle], accepted := [7], dequeued := [7], finished := [7],
                             full := {7}, calls := map[0 := StartDone(true), 1 := Accepted(7)])
    ensures Enabled(p, ReadResult(7)) && Next(p, ReadResult(7)).full == {}
  {
    p := SendOne();
    p := Take(p, Work(0, Receive));
    assert p.workers == [Executing(7)];
    p := Take(p, Work(0, Execute));
    assert p.workers == [Sending(7)];
    p := Take(p, Work(0, Send));
    assert p.workers == [Idle];
  }

  lemma WinStop() returns (p: Pool)
    ensures Reached(p)
    ensures p == NewPool(1).(life := 2, wg := 1, workers := [Idle],
                             accepted := [7], dequeued := [7], finished := [7], full := {7},
                             calls := map[0 := StartDone(true), 1 := Accepted(7), 2 := Cancelling])
  {
    p := TaskIsExecuted();
    p := Take(p, CallStop(2));
    p := Take(p, Step(2, StopTry1));
    assert p.calls == map[0 := StartDone(true), 1 := Accepted(7), 2 := Cancelling];
  }

  lemma StopToWait() returns (p: Pool)
    ensures Reached(p)
    ensures p == NewPool(1).(life := 2, cancelled := true, closed := true, wg := 1, workers := [Idle],
                             accepted := [7], dequeued := [7], finished := [7], full := {7},
                             calls := map[0 := StartDone(true), 1 := Accepted(7), 2 := Waiting])
  {
    p := WinStop();
    p := Take(p, Step(2, Cancel));
    assert p.calls == map[0 := StartDone(true), 1 := Accepted(7), 2 := Closing];
    p := Take(p, Step(2, Close));
    assert p.calls == map[0 := StartDone(true), 1 := Accepted(7), 2 := Waiting];
  }

  /** A whole run: Start, a task accepted, executed and finished, and a Stop that returns with the worker gone. */
  lemma WholeRun()
    ensures exists p :: Reached(p) && p.finished == [7] && p.workers == [Exited] && p.wg == 0 && p.life == 2 &&
                        p.calls == map[0 := StartDone(true), 1 := Accepted(7), 2 := StopDone(true)]
  {
    var p := StopToWait();
    p := Take(p, Work(0, Leave));
    assert p.workers == [Leaving];
    p := Take(p, Work(0, Exit));
    assert p.workers == [Exited];
    p := Take(p, Step(2, WaitOver));
    assert p.calls == map[0 := StartDone(true), 1 := Accepted(7), 2 := StopDone(true)];
  }
}
