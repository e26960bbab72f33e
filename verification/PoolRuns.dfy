/** The pool's main results, over every run. */
module PoolRuns {
  import opened PoolProtocol
  import opened PoolTheorems

  ghost predicate Steady(p: Pool)
  {
    p.n >= 1 && OneWinner(p) && Counted(p) && Ledger(p) && Orderly(p)
  }

  lemma {:induction false} SteadyAt(run: Run, i: nat)
    requires IsRun(run) && i < |run.states|
    ensures Steady(run.states[i])
  {
    if i == 0 {
    } else {
      assert StepAt(run, i - 1);
      var p, l := run.states[i - 1], run.labels[i - 1];
      SteadyAt(run, i - 1);
      OneWinnerStep(p, l);
      CountedStep(p, l);
      LedgerStep(p, l);
      OrderlyStep(p, l);
    }
  }

  // ---- Life cycle and bounds

  lemma WorkersBound(p: Pool)
    requires Steady(p)
    ensures |p.workers| <= p.n
  {
    if c :| StartWins(p, c) { assert CountsAt(p, p.calls[c]); }
  }

  lemma UnfinishedBound(p: Pool)
    requires Steady(p)
    ensures |p.accepted| - |p.finished| <= 2 * p.n
  {
    WorkersBound(p);
    BusyBound(p.workers);
    assert |multiset(p.dequeued)| == |multiset(p.finished)| + |Busy(p.workers)|;
  }

  lemma Bounds(p: Pool)
    requires Steady(p)
    ensures OneWinner(p) && |p.workers| <= p.n && |p.accepted| - |p.finished| <= 2 * p.n
    ensures Started(p) ==> |p.workers| == p.n && p.wg == Live(p.workers)
  {
    WorkersBound(p);
    UnfinishedBound(p);
    if Started(p) { StartedCounts(p); }
  }

  /**
    Under any number of concurrent Start, Stop and Do calls: the state moves only 0 to 1, 1 to 2 or 0 to 2;
    one Start at most spawns workers and one Stop at most cancels and closes; no more than NumberWorker
    workers ever exist; at most twice as many tasks are accepted and unfinished; and once Start has returned
    the wait group counts exactly the workers that have not exited.
   */
  lemma LifeCycle(run: Run, i: nat)
    requires IsRun(run) && i < |run.labels|
    ensures var p, q := run.states[i], run.states[i + 1];
            && (q.life == p.life || (p.life, q.life) in {(0, 1), (1, 2), (0, 2)})
            && OneWinner(q)
            && |q.workers| <= q.n
            && |q.accepted| - |q.finished| <= 2 * q.n
            && (Started(q) ==> |q.workers| == q.n && q.wg == Live(q.workers))
  {
    assert StepAt(run, i);
    SteadyAt(run, i);
    SteadyAt(run, i + 1);
    LifeStep(run.states[i], run.labels[i]);
    Bounds(run.states[i + 1]);
  }

  /** A select evaluated on the closed queue chose to send. */
  ghost predicate SendOnClosed(p: Pool, l: Label)
  {
    l.Step? && l.op.SelectSend? && p.closed
  }

  lemma CrashStep(p: Pool, l: Label)
    requires Enabled(p, l) && Steady(p)
    ensures l.Step? && l.op.Close? ==> !p.closed && forall c :: c in p.calls ==> !p.calls[c].Parked?
    ensures Next(p, l).crashed <==> SendOnClosed(p, l)
  {
    if l.Step? && l.op.Close? {
      assert StopOrder(p, p.calls[l.c]);
      forall c | c in p.calls ensures !p.calls[c].Parked? { assert StopOrder(p, p.calls[c]); }
    }
  }

  /**
    The pool panics in no other way than by a select that is evaluated after close and chooses the closed
    send. CloseIsClean and RiskExactly say what this means for those who call Stop and Do.
   */
  lemma PanicsExactly(run: Run)
    requires IsRun(run)
    ensures (exists i :: 0 <= i < |run.states| && run.states[i].crashed) <==>
            (exists j :: 0 <= j < |run.labels| && SendOnClosed(run.states[j], run.labels[j]))
  {
    forall j | 0 <= j < |run.labels|
      ensures run.states[j + 1].crashed <==> SendOnClosed(run.states[j], run.labels[j])
    {
      assert StepAt(run, j);
      SteadyAt(run, j);
      CrashStep(run.states[j], run.labels[j]);
    }
    if i :| 0 <= i < |run.states| && run.states[i].crashed {
      assert i > 0 && SendOnClosed(run.states[i - 1], run.labels[i - 1]);
    }
    if j :| 0 <= j < |run.labels| && SendOnClosed(run.states[j], run.labels[j]) {
      assert run.states[j + 1].crashed;
    }
  }

  /** Closing the queue is always in order: nobody closed it before, and nobody is parked on it. */
  lemma CloseIsClean(run: Run, j: nat)
    requires IsRun(run) && j < |run.labels| && Closes(run.labels[j])
    ensures var p := run.states[j];
            !p.closed && p.cancelled && (forall c :: c in p.calls ==> !p.calls[c].Parked?) && !run.states[j + 1].crashed
  {
    assert StepAt(run, j);
    SteadyAt(run, j);
    CrashStep(run.states[j], run.labels[j]);
    assert StopOrder(run.states[j], run.states[j].calls[run.labels[j].c]);
  }

  /** The call may panic with its very next operation. */
  ghost predicate AtRisk(p: Pool, c: nat)
  {
    exists op :: Enabled(p, Step(c, op)) && Next(p, Step(c, op)).crashed
  }

  /**
    Which calls are at risk: those of Do whose select is still to be evaluated when the queue is closed, and
    no others, of whatever kind.
   */
  lemma RiskExactly(run: Run, i: nat, c: nat)
    requires IsRun(run) && i < |run.states| && !run.states[i].crashed && c in run.states[i].calls
    ensures AtRisk(run.states[i], c) <==> run.states[i].closed && run.states[i].calls[c].Selecting?
  {
    var p := run.states[i];
    SteadyAt(run, i);
    if p.closed && p.calls[c].Selecting? {
      assert Enabled(p, Step(c, SelectSend)) && Next(p, Step(c, SelectSend)).crashed;
    }
    if op :| Enabled(p, Step(c, op)) && Next(p, Step(c, op)).crashed {
      CrashStep(p, Step(c, op));
    }
  }

  /** A Do whose select has been evaluated, so that it is parked or has returned, is safe from then on. */
  lemma {:induction false} SafeOnceSelected(run: Run, i: nat, j: nat, c: nat)
    requires IsRun(run) && i <= j < |run.states| && c in run.states[i].calls && !run.states[i].calls[c].Selecting?
    ensures c in run.states[j].calls && !run.states[j].calls[c].Selecting? && !AtRisk(run.states[j], c)
    decreases j
  {
    if i == j {
    } else {
      assert StepAt(run, j - 1);
      SafeOnceSelected(run, i, j - 1, c);
    }
    if !run.states[j].crashed { RiskExactly(run, j, c); }
  }

  /** A select is evaluated in this step. */
  ghost predicate Selects(l: Label)
  {
    l.Step? && (l.op.SelectSend? || l.op.SelectDone? || l.op.Park?)
  }

  /** So a run in which no select is evaluated after close never panics. */
  lemma NoLateSelectNoPanic(run: Run, i: nat)
    requires IsRun(run) && i < |run.states|
    requires forall j :: 0 <= j < |run.labels| && Selects(run.labels[j]) ==> !run.states[j].closed
    ensures !run.states[i].crashed
  {
    PanicsExactly(run);
  }

  // ---- Each task submitted once

  ghost predicate IsDo(call: Call)
  {
    call.Selecting? || call.Parked? || call.Accepted? || call.Dropped?
  }

  /** No two calls of Do were given the same task. */
  ghost predicate OncePerTask(p: Pool)
  {
    forall c, d :: c in p.calls && d in p.calls && IsDo(p.calls[c]) && IsDo(p.calls[d]) && p.calls[c].t == p.calls[d].t
      ==> c == d
  }

  ghost predicate SubmittedOnce(run: Run)
  {
    IsRun(run) && forall i :: 0 <= i < |run.states| ==> OncePerTask(run.states[i])
  }

  ghost predicate AcceptedBy(p: Pool, c: nat, t: nat)
  {
    c in p.calls && p.calls[c] == Accepted(t)
  }

  ghost predicate NoDuplicates(s: seq<nat>)
  {
    forall i, j :: 0 <= i < j < |s| ==> s[i] != s[j]
  }

  /** accepted lists exactly the tasks of the calls that returned having sent, and results come from finished tasks. */
  ghost predicate Registered(p: Pool)
  {
    && (forall t :: t in p.accepted ==> exists c :: AcceptedBy(p, c, t))
    && (forall c, t :: AcceptedBy(p, c, t) ==> t in p.accepted)
    && (forall t :: t in p.full ==> t in p.finished)
    && NoDuplicates(p.accepted)
  }

  lemma AcceptedMoves(p: Pool, l: Label, c: nat, t: nat)
    requires Enabled(p, l)
    ensures AcceptedBy(Next(p, l), c, t) <==>
            AcceptedBy(p, c, t) ||
            (l.Step? && (l.op.SelectSend? || l.op.Unpark?) && !p.closed && l.c == c && p.calls[c].t == t)
  {
    if !Targets(l, c) { OthersStand(p, l, c); }
  }

  lemma AcceptedGrows(p: Pool, l: Label)
    requires Enabled(p, l)
    ensures Next(p, l).accepted ==
            if l.Step? && (l.op.SelectSend? || l.op.Unpark?) && !p.closed
            then p.accepted + [p.calls[l.c].t] else p.accepted
    ensures forall t :: t in Next(p, l).full ==> t in p.full || t in Next(p, l).finished
    ensures p.finished <= Next(p, l).finished
  {
  }

  lemma RegisteredStep(p: Pool, l: Label)
    requires Enabled(p, l) && Registered(p) && OncePerTask(p)
    ensures Registered(Next(p, l))
  {
    var q := Next(p, l);
    AcceptedGrows(p, l);
    forall c: nat, t: nat | AcceptedBy(q, c, t) ensures t in q.accepted { AcceptedMoves(p, l, c, t); }
    forall t | t in q.accepted ensures exists c :: AcceptedBy(q, c, t) {
      if t in p.accepted {
        var c :| AcceptedBy(p, c, t);
        AcceptedMoves(p, l, c, t);
      } else {
        AcceptedMoves(p, l, l.c, t);
        assert AcceptedBy(q, l.c, t);
      }
    }
    if q.accepted != p.accepted {
      assert p.calls[l.c].t !in p.accepted;
    }
  }

  lemma {:induction false} RegisteredAt(run: Run, i: nat)
    requires SubmittedOnce(run) && i < |run.states|
    ensures Registered(run.states[i])
  {
    if i == 0 {
    } else {
      assert StepAt(run, i - 1);
      RegisteredAt(run, i - 1);
      assert OncePerTask(run.states[i - 1]);
      RegisteredStep(run.states[i - 1], run.labels[i - 1]);
    }
  }

  lemma {:induction false} OccursOnce(s: seq<nat>, t: nat)
    requires NoDuplicates(s)
    ensures multiset(s)[t] == if t in s then 1 else 0
  {
    if s == [] {
    } else {
      var n := |s| - 1;
      OccursOnce(s[..n], t);
      assert s == s[..n] + [s[n]];
    }
  }

  // ---- Stop drains the pool

  /** A Start has returned having spawned the workers. */
  ghost predicate Started(p: Pool)
  {
    exists d: nat :: d in p.calls && p.calls[d] == StartDone(true)
  }

  lemma StartedCounts(p: Pool)
    requires Steady(p) && Started(p)
    ensures |p.workers| == p.n && p.wg == Live(p.workers)
  {
    var d: nat :| d in p.calls && p.calls[d] == StartDone(true);
    assert StartWins(p, d) && CountsAt(p, p.calls[d]);
  }

  /** The state in which a Stop may finish waiting, once Start has returned: nothing queued, no one working. */
  lemma WaitOverMeansDrained(p: Pool, c: nat)
    requires Steady(p) && Started(p) && c in p.calls && p.calls[c].Waiting? && p.wg == 0
    ensures p.queue == [] && forall w :: 0 <= w < |p.workers| ==> p.workers[w].Exited?
    ensures p.dequeued == p.accepted && multiset(p.finished) == multiset(p.accepted)
  {
    StartedCounts(p);
    NoneLive(p.workers);
    assert p.workers[0].Exited?;
    BusyBound(p.workers);
  }

  /** This Do has not dropped its task, or the context is cancelled. */
  ghost predicate DropsAreCancelled(p: Pool, d: nat)
  {
    d in p.calls && p.calls[d].Dropped? ==> p.cancelled
  }

  /**
    Stop drains exactly once. If Start had returned before the winning Stop finished waiting, and each task
    was submitted once, then when that Stop returns every worker has exited; tasks were dequeued in the
    order they were accepted; every task whose Do sent it, before or after the cancellation, has run and sent
    exactly one result; and a task whose Do dropped it has sent none, the context having been cancelled in
    every state of the run in which it is dropped, the first included.
   */
  lemma StopDrainsExactlyOnce(run: Run, i: nat, c: nat, d: nat)
    requires SubmittedOnce(run) && i < |run.labels|
    requires run.labels[i] == Step(c, WaitOver) && Started(run.states[i])
    requires d in run.states[i + 1].calls
    ensures var q := run.states[i + 1];
            && c in q.calls && q.calls[c] == StopDone(true)
            && (forall w :: 0 <= w < |q.workers| ==> q.workers[w].Exited?)
            && q.queue == [] && q.dequeued == q.accepted && multiset(q.finished) == multiset(q.accepted)
            && (q.calls[d].Accepted? ==> multiset(q.finished)[q.calls[d].t] == 1)
            && (q.calls[d].Dropped? ==> multiset(q.finished)[q.calls[d].t] == 0)
            && !q.calls[d].Parked?
    ensures forall j :: 0 <= j <= i + 1 ==> DropsAreCancelled(run.states[j], d)
  {
    var p, q := run.states[i], run.states[i + 1];
    assert StepAt(run, i);
    SteadyAt(run, i);
    SteadyAt(run, i + 1);
    WaitOverMeansDrained(p, c);
    RegisteredAt(run, i + 1);
    forall j | 0 <= j <= i + 1 ensures DropsAreCancelled(run.states[j], d) {
      SteadyAt(run, j);
      assert d in run.states[j].calls ==> StopOrder(run.states[j], run.states[j].calls[d]);
    }
    assert StopOrder(q, q.calls[d]) && StopOrder(q, q.calls[c]);
    if q.calls[d].Accepted? || q.calls[d].Dropped? {
      var t := q.calls[d].t;
      OccursOnce(q.accepted, t);
      if q.calls[d].Accepted? {
        assert AcceptedBy(q, d, t);
      } else {
        assert OncePerTask(q);
        assert t !in q.accepted;
      }
    }
  }

  // ---- Progress from close to the return of Stop

  ghost function WorkLeft(w: Worker): nat
  {
    match w
    case Executing(_) => 4
    case Sending(_) => 3
    case Idle => 2
    case Leaving => 1
    case Exited => 0
  }

  ghost function WorkersLeft(ws: seq<Worker>): nat
  {
    if ws == [] then 0 else WorkersLeft(ws[..|ws| - 1]) + WorkLeft(ws[|ws| - 1])
  }

  /** What is left to do: queued tasks, and how far each worker is from its exit. */
  ghost function Left(p: Pool): nat
  {
    3 * |p.queue| + WorkersLeft(p.workers)
  }

  lemma {:induction false} WorkersLeftUpdate(ws: seq<Worker>, w: nat, x: Worker)
    requires w < |ws|
    ensures WorkersLeft(ws[w := x]) + WorkLeft(ws[w]) == WorkersLeft(ws) + WorkLeft(x)
  {
    var n := |ws| - 1;
    if w == n {
      assert ws[w := x][..n] == ws[..n];
    } else {
      WorkersLeftUpdate(ws[..n], w, x);
      assert ws[w := x][..n] == ws[..n][w := x];
    }
  }

  lemma WorkDecreases(p: Pool, w: nat, op: WorkOp)
    requires WorkEnabled(p, w, op)
    ensures Left(WorkStep(p, w, op)) < Left(p) && WorkStep(p, w, op).closed == p.closed
  {
    var x := WorkStep(p, w, op).workers[w];
    WorkersLeftUpdate(p.workers, w, x);
    assert WorkStep(p, w, op).workers == p.workers[w := x];
  }

  lemma OthersDoNotIncrease(p: Pool, l: Label)
    requires Enabled(p, l) && Steady(p) && Started(p) && p.closed && !l.Work?
    ensures Next(p, l).queue == p.queue && Next(p, l).workers == p.workers && Next(p, l).closed
  {
    var d: nat :| d in p.calls && p.calls[d] == StartDone(true);
    assert StartWins(p, d);
    if l.Step? && l.op.Spawn? { assert StartWins(p, l.c); }
  }

  lemma StartedStays(p: Pool, l: Label)
    requires Enabled(p, l) && Started(p)
    ensures Started(Next(p, l))
  {
    var d: nat :| d in p.calls && p.calls[d] == StartDone(true);
    if !Targets(l, d) { OthersStand(p, l, d); }
  }

  ghost function WorkSteps(run: Run, i: nat, j: nat): nat
    requires i <= j <= |run.labels|
    decreases j
  {
    if i == j then 0 else WorkSteps(run, i, j - 1) + if run.labels[j - 1].Work? then 1 else 0
  }

  /** From close on, with Start returned, every worker step uses up some of what is left and nothing adds to it. */
  lemma {:induction false} WorkIsBounded(run: Run, i: nat, j: nat)
    requires IsRun(run) && i <= j <= |run.labels| && run.states[i].closed && Started(run.states[i])
    ensures WorkSteps(run, i, j) + Left(run.states[j]) <= Left(run.states[i])
    ensures run.states[j].closed && Started(run.states[j])
    decreases j
  {
    if i == j {
    } else {
      assert StepAt(run, j - 1);
      WorkIsBounded(run, i, j - 1);
      SteadyAt(run, j - 1);
      var p, l := run.states[j - 1], run.labels[j - 1];
      StartedStays(p, l);
      if l.Work? {
        assert Next(p, l) == WorkStep(p, l.w, l.wop);
        WorkDecreases(p, l.w, l.wop);
      } else {
        OthersDoNotIncrease(p, l);
      }
    }
  }

  /** A worker that holds a result finds its task's channel empty: the capacity-1 channel never blocks it. */
  lemma ResultNeverBlocks(run: Run, i: nat, w: nat)
    requires SubmittedOnce(run) && i < |run.states|
    requires w < |run.states[i].workers| && run.states[i].workers[w].Sending?
    ensures WorkEnabled(run.states[i], w, Send)
  {
    var p := run.states[i];
    var t := p.workers[w].t;
    SteadyAt(run, i);
    RegisteredAt(run, i);
    BusyHas(p.workers, w);
    OccursOnce(p.accepted, t);
    assert multiset(p.accepted) == multiset(p.dequeued) + multiset(p.queue);
    assert Task(p.workers[w])[t] == 1;
    assert multiset(p.finished)[t] == 0;
  }

  /**
    No deadlock: in every state reached from close on, with Start returned, either the wait group is empty,
    so that Stop can return, or some worker can take a step; and by WorkIsBounded those steps run out.
   */
  lemma StopIsNeverStuck(run: Run, i: nat)
    requires SubmittedOnce(run) && i < |run.states| && run.states[i].closed && Started(run.states[i])
    ensures run.states[i].wg == 0 || exists w: nat, op :: WorkEnabled(run.states[i], w, op)
  {
    var p := run.states[i];
    SteadyAt(run, i);
    StartedCounts(p);
    NoneLive(p.workers);
    if p.wg != 0 {
      var w: nat :| w < |p.workers| && !p.workers[w].Exited?;
      match p.workers[w]
      case Idle => assert WorkEnabled(p, w, if p.queue == [] then Leave else Receive);
      case Executing(_) => assert WorkEnabled(p, w, Execute);
      case Sending(_) => ResultNeverBlocks(run, i, w);
      case Leaving => assert WorkEnabled(p, w, Exit);
      case Exited =>
    }
  }

  /**
    Nor does anybody wait in vain before close: once Start has returned, a parked Do can go on, or a worker
    can take a step towards making room for it.
   */
  lemma ParkedIsNeverStuck(run: Run, i: nat, c: nat)
    requires SubmittedOnce(run) && i < |run.states| && Started(run.states[i])
    requires c in run.states[i].calls && run.states[i].calls[c].Parked?
    ensures CallEnabled(run.states[i], run.states[i].calls[c], Unpark) ||
            exists w: nat, op :: WorkEnabled(run.states[i], w, op)
  {
    var p := run.states[i];
    SteadyAt(run, i);
    StartedCounts(p);
    assert StopOrder(p, p.calls[c]) && !p.closed;
    if |p.queue| >= p.n {
      match p.workers[0]
      case Idle => assert WorkEnabled(p, 0, Receive);
      case Executing(_) => assert WorkEnabled(p, 0, Execute);
      case Sending(_) => ResultNeverBlocks(run, i, 0);
      case Leaving =>
      case Exited =>
    }
  }

  // ---- Where the promise ends, exactly

  /** A Start wins at step k, and no Stop makes its first attempt from then until step j. */
  ghost predicate StartSlipsIn(run: Run, k: nat, j: nat)
    requires k < j <= |run.labels| <= |run.states|
  {
    && run.labels[k].Step? && run.labels[k].op.StartTry? && run.states[k].life == 0
    && forall m :: k < m < j ==> !(run.labels[m].Step? && run.labels[m].op.StopTry1?)
  }

  lemma {:induction false} StartedSinceZero(run: Run, i: nat, j: nat)
    requires IsRun(run) && i <= j <= |run.labels| && run.states[i].life == 0 && run.states[j].life == 1
    ensures exists k :: i <= k < j && StartSlipsIn(run, k, j)
    decreases j
  {
    assert i < j && StepAt(run, j - 1);
    if run.states[j - 1].life == 1 {
      StartedSinceZero(run, i, j - 1);
      var k :| i <= k < j - 1 && StartSlipsIn(run, k, j - 1);
      assert StartSlipsIn(run, k, j);
    } else {
      assert StartSlipsIn(run, j - 1, j);
    }
  }

  lemma {:induction false} StaysStarted(run: Run, k: nat, j: nat)
    requires IsRun(run) && k < j <= |run.labels| && StartSlipsIn(run, k, j)
    ensures run.states[j].life == 1
    decreases j
  {
    assert StepAt(run, j - 1);
    if k == j - 1 {
    } else {
      assert StartSlipsIn(run, k, j - 1);
      StaysStarted(run, k, j - 1);
    }
  }

  lemma {:induction false} StaysStopped(run: Run, i: nat, j: nat)
    requires IsRun(run) && i <= j <= |run.labels| && run.states[i].life == 2
    ensures run.states[j].life == 2
    decreases j
  {
    if i == j {
    } else {
      assert StepAt(run, j - 1);
      StaysStopped(run, i, j - 1);
    }
  }

  /**
    Stop leaves the pool unstopped if and only if a Start wins between its two compare-and-swaps and no other
    Stop makes its first attempt after that and before the second of this one.
   */
  lemma StopStopsExactly(run: Run, c: nat, i: nat, j: nat)
    requires IsRun(run) && i < j < |run.labels|
    requires run.labels[i] == Step(c, StopTry1) && run.labels[j] == Step(c, StopTry2)
    ensures run.states[j + 1].life != 2 <==> exists k :: i < k < j && StartSlipsIn(run, k, j)
  {
    assert StepAt(run, i) && StepAt(run, j);
    SteadyAt(run, i);
    SteadyAt(run, j);
    if run.states[j + 1].life != 2 {
      if run.states[i + 1].life == 2 { StaysStopped(run, i + 1, j); }
      StartedSinceZero(run, i + 1, j);
    }
    if k :| i < k < j && StartSlipsIn(run, k, j) {
      StaysStarted(run, k, j);
    }
  }

  /** No worker is left, and none is still to be spawned. */
  ghost predicate AllGone(p: Pool)
  {
    && (forall w :: 0 <= w < |p.workers| ==> p.workers[w].Exited?)
    && (forall d :: d in p.calls ==> !p.calls[d].Adding? && !p.calls[d].Spawning?)
  }

  /**
    Stop returns with every worker gone and none to come if and only if no Start stands between its
    compare-and-swap and its wg.Add when the wait ends.
   */
  lemma StopWaitsExactly(run: Run, i: nat, c: nat)
    requires IsRun(run) && i < |run.labels| && run.labels[i] == Step(c, WaitOver)
    ensures AllGone(run.states[i + 1]) <==> forall d :: d in run.states[i].calls ==> !run.states[i].calls[d].Adding?
  {
    var p, q := run.states[i], run.states[i + 1];
    assert StepAt(run, i);
    SteadyAt(run, i);
    assert q.workers == p.workers && q.calls == p.calls[c := StopDone(true)];
    if d :| d in p.calls && p.calls[d].Adding? {
      assert d in q.calls && q.calls[d].Adding?;
    } else {
      NoneLive(p.workers);
      forall d | d in p.calls ensures !p.calls[d].Spawning? {
        assert StartWins(p, d) ==> CountsAt(p, p.calls[d]);
      }
      if d: nat :| StartWins(p, d) { assert CountsAt(p, p.calls[d]); } else { assert NoStart(p); }
    }
  }

  ghost predicate Reached(p: Pool)
  {
    exists run: Run :: IsRun(run) && run.states[|run.states| - 1] == p
  }

  lemma Take(p: Pool, l: Label) returns (q: Pool)
    requires Reached(p) && Enabled(p, l)
    ensures Reached(q) && q == Next(p, l)
  {
    q := Next(p, l);
    var run: Run :| IsRun(run) && run.states[|run.states| - 1] == p;
    var r := Run(run.states + [q], run.labels + [l]);
    forall i | 0 <= i < |r.labels| ensures StepAt(r, i) {
      if i < |run.labels| { assert StepAt(run, i); }
    }
    assert IsRun(r) && r.states[|r.states| - 1] == q;
  }

  lemma Fresh(n: nat) returns (p: Pool)
    requires n >= 1
    ensures Reached(p) && p == NewPool(n)
  {
    p := NewPool(n);
    var r := Run([p], []);
    assert IsRun(r) && r.states[|r.states| - 1] == p;
  }

  /** A Start that slips between the two compare-and-swaps of a Stop leaves the pool started and open. */
  lemma StopMayStopNothing(n: nat)
    requires n >= 1
    ensures exists p ::
              && Reached(p) && p.calls == map[0 := StopDone(false), 1 := Adding]
              && p.life == 1 && !p.cancelled && !p.closed
  {
    var p := Fresh(n);
    p := Take(p, CallStop(0));
    p := Take(p, Step(0, StopTry1));
    p := Take(p, CallStart(1));
    p := Take(p, Step(1, StartTry));
    p := Take(p, Step(0, StopTry2));
    assert p.calls == map[0 := StopDone(false), 1 := Adding];
  }

  lemma StopOvertakesStart(n: nat) returns (p: Pool)
    requires n >= 1
    ensures Reached(p) && p == NewPool(n).(life := 2, calls := map[0 := Cancelling, 1 := Adding])
  {
    p := Fresh(n);
    p := Take(p, CallStart(1));
    p := Take(p, Step(1, StartTry));
    p := Take(p, CallStop(0));
    p := Take(p, Step(0, StopTry1));
    assert p.calls == map[0 := Cancelling, 1 := Adding];
  }

  /** A Stop that overtakes Start before wg.Add returns at once although the workers are still to come. */
  lemma StopMayNotWait(n: nat)
    requires n >= 1
    ensures exists p :: Reached(p) && p.calls == map[0 := StopDone(true), 1 := Spawning(0)] && p.wg == n && p.closed
  {
    var p := StopOvertakesStart(n);
    p := Take(p, Step(0, Cancel));
    assert p.calls == map[0 := Closing, 1 := Adding];
    p := Take(p, Step(0, Close));
    assert p.calls == map[0 := Waiting, 1 := Adding];
    p := Take(p, Step(0, WaitOver));
    p := Take(p, Step(1, Add));
    assert p.calls == map[0 := StopDone(true), 1 := Spawning(0)];
  }

  lemma StopWithoutStart(n: nat) returns (p: Pool)
    requires n >= 1
    ensures Reached(p) && p == NewPool(n).(life := 2, cancelled := true, calls := map[0 := Closing])
  {
    p := Fresh(n);
    p := Take(p, CallStop(0));
    p := Take(p, Step(0, StopTry1));
    p := Take(p, Step(0, StopTry2));
    p := Take(p, Step(0, Cancel));
    assert p.calls == map[0 := Closing];
  }

  /** A Do whose select is evaluated after close may choose the closed send, and panic. */
  lemma DoAfterStopMayPanic(n: nat)
    requires n >= 1
    ensures exists p :: Reached(p) && p.crashed && p.calls == map[0 := Waiting, 1 := Selecting(7)]
  {
    var p := StopWithoutStart(n);
    p := Take(p, Step(0, Close));
    assert p.calls == map[0 := Waiting];
    p := Take(p, CallDo(1, 7));
    assert p.calls == map[0 := Waiting, 1 := Selecting(7)];
    p := Take(p, Step(1, SelectSend));
  }
}
