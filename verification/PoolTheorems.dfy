/** What every run of the pool keeps: its life cycle, its bounds, its ledger of tasks, and progress after close. */
module PoolTheorems {
  import opened PoolProtocol

  ghost predicate StartWinner(call: Call)
  {
    call.Adding? || call.Spawning? || (call.StartDone? && call.won)
  }

  ghost predicate StopWinner(call: Call)
  {
    call.Cancelling? || call.Closing? || call.Waiting? || (call.StopDone? && call.won)
  }

  ghost predicate StartWins(p: Pool, c: nat)
  {
    c in p.calls && StartWinner(p.calls[c])
  }

  ghost predicate StopWins(p: Pool, c: nat)
  {
    c in p.calls && StopWinner(p.calls[c])
  }

  ghost predicate Targets(l: Label, c: nat)
  {
    (l.CallStart? || l.CallStop? || l.CallDo? || l.Step?) && l.c == c
  }

  /** A call moves by its own steps, except that a cancellation drops it while it is parked. */
  lemma OthersStand(p: Pool, l: Label, c: nat)
    requires Enabled(p, l) && !Targets(l, c)
    ensures c in Next(p, l).calls <==> c in p.calls
    ensures c in p.calls ==>
              || Next(p, l).calls[c] == p.calls[c]
              || (p.calls[c].Parked? && Next(p, l).calls[c] == Dropped(p.calls[c].t) && Next(p, l).cancelled)
  {
  }

  ghost predicate FirstStart(p: Pool, l: Label, c: nat)
  {
    l == Step(c, StartTry) && p.life == 0
  }

  ghost predicate FirstStop(p: Pool, l: Label, c: nat)
  {
    (l == Step(c, StopTry1) && p.life == 1) || (l == Step(c, StopTry2) && p.life == 0)
  }

  /** A call becomes a winner only by its compare-and-swap, and remains one. */
  lemma WinnersMove(p: Pool, l: Label, c: nat)
    requires Enabled(p, l)
    ensures StartWins(Next(p, l), c) <==> StartWins(p, c) || FirstStart(p, l, c)
    ensures StopWins(Next(p, l), c) <==> StopWins(p, c) || FirstStop(p, l, c)
  {
    if !Targets(l, c) { OthersStand(p, l, c); }
  }

  /** The two compare-and-swap races have at most one winner each, for ever. */
  ghost predicate OneWinner(p: Pool)
  {
    && p.life <= 2
    && (forall c :: StartWins(p, c) ==> p.life >= 1)
    && (forall c :: StopWins(p, c) ==> p.life == 2)
    && (forall c, d :: StartWins(p, c) && StartWins(p, d) ==> c == d)
    && (forall c, d :: StopWins(p, c) && StopWins(p, d) ==> c == d)
  }

  lemma LifeStep(p: Pool, l: Label)
    requires Enabled(p, l) && p.life <= 2
    ensures Next(p, l).life == p.life || (p.life, Next(p, l).life) in {(0, 1), (1, 2), (0, 2)}
    ensures forall c :: FirstStart(p, l, c) ==> Next(p, l).life == 1
    ensures forall c :: FirstStop(p, l, c) ==> Next(p, l).life == 2
  {
  }

  lemma OneWinnerStep(p: Pool, l: Label)
    requires Enabled(p, l) && OneWinner(p)
    ensures OneWinner(Next(p, l))
  {
    LifeStep(p, l);
    var q := Next(p, l);
    forall c: nat
      ensures StartWins(q, c) <==> StartWins(p, c) || FirstStart(p, l, c)
      ensures StopWins(q, c) <==> StopWins(p, c) || FirstStop(p, l, c)
    {
      WinnersMove(p, l, c);
    }
  }

  // ---- The wait group and the workers

  ghost predicate Alive(w: Worker)
  {
    !w.Exited?
  }

  ghost function Live(ws: seq<Worker>): nat
  {
    if ws == [] then 0 else Live(ws[..|ws| - 1]) + if Alive(ws[|ws| - 1]) then 1 else 0
  }

  lemma {:induction false} LiveUpdate(ws: seq<Worker>, w: nat, x: Worker)
    requires w < |ws|
    ensures Live(ws[w := x]) + (if Alive(ws[w]) then 1 else 0) == Live(ws) + (if Alive(x) then 1 else 0)
  {
    var n := |ws| - 1;
    if w == n {
      assert ws[w := x][..n] == ws[..n];
    } else {
      LiveUpdate(ws[..n], w, x);
      assert ws[w := x][..n] == ws[..n][w := x];
    }
  }

  lemma LiveAppend(ws: seq<Worker>, x: Worker)
    ensures Live(ws + [x]) == Live(ws) + if Alive(x) then 1 else 0
  {
    assert (ws + [x])[..|ws|] == ws;
  }

  lemma {:induction false} NoneLive(ws: seq<Worker>)
    ensures Live(ws) == 0 <==> forall w :: 0 <= w < |ws| ==> ws[w].Exited?
  {
    if ws == [] {
    } else {
      NoneLive(ws[..|ws| - 1]);
      assert forall w :: 0 <= w < |ws| - 1 ==> ws[..|ws| - 1][w] == ws[w];
    }
  }

  /** What the wait group counts while the winning Start is at this point. */
  ghost predicate CountsAt(p: Pool, call: Call)
  {
    match call
    case Adding => p.workers == [] && p.wg == 0
    case Spawning(i) => i < p.n && |p.workers| == i && p.wg == p.n - i + Live(p.workers)
    case StartDone(true) => |p.workers| == p.n && p.wg == Live(p.workers)
    case _ => true
  }

  ghost predicate NoStart(p: Pool)
  {
    forall c :: !StartWins(p, c)
  }

  ghost predicate Counted(p: Pool)
  {
    && (forall c :: StartWins(p, c) ==> CountsAt(p, p.calls[c]))
    && (NoStart(p) ==> p.workers == [] && p.wg == 0)
  }

  lemma WorkCounts(p: Pool, w: nat, op: WorkOp)
    requires WorkEnabled(p, w, op)
    ensures var q := WorkStep(p, w, op);
            |q.workers| == |p.workers| && q.wg - Live(q.workers) == p.wg - Live(p.workers)
  {
    var q := WorkStep(p, w, op);
    LiveUpdate(p.workers, w, q.workers[w]);
    assert q.workers == p.workers[w := q.workers[w]];
  }

  /** Calls other than the winning Start leave the workers and the wait group alone. */
  lemma CountsStand(p: Pool, l: Label)
    requires Enabled(p, l) && !l.Work? && !(l.Step? && (l.op.Add? || l.op.Spawn?))
    ensures Next(p, l).workers == p.workers && Next(p, l).wg == p.wg && Next(p, l).n == p.n
  {
  }

  lemma StartCounts(p: Pool, c: nat, op: CallOp)
    requires Enabled(p, Step(c, op)) && (op.Add? || op.Spawn?) && p.n >= 1 && CountsAt(p, p.calls[c])
    ensures CountsAt(Next(p, Step(c, op)), Next(p, Step(c, op)).calls[c])
  {
    LiveAppend(p.workers, Idle);
  }

  lemma CountsAtStep(p: Pool, l: Label, c: nat)
    requires Enabled(p, l) && OneWinner(p) && Counted(p) && p.n >= 1 && StartWins(Next(p, l), c)
    ensures CountsAt(Next(p, l), Next(p, l).calls[c])
  {
    WinnersMove(p, l, c);
    if l.Work? {
      assert Next(p, l) == WorkStep(p, l.w, l.wop);
      WorkCounts(p, l.w, l.wop);
    } else if l.Step? && (l.op.Add? || l.op.Spawn?) {
      assert StartWins(p, l.c) && l.c == c;
      StartCounts(p, c, l.op);
    } else {
      CountsStand(p, l);
      if FirstStart(p, l, c) {
        assert NoStart(p);
      } else if !Targets(l, c) {
        OthersStand(p, l, c);
      }
    }
  }

  lemma CountedStep(p: Pool, l: Label)
    requires Enabled(p, l) && OneWinner(p) && Counted(p) && p.n >= 1
    ensures Counted(Next(p, l))
  {
    var q := Next(p, l);
    forall c: nat | StartWins(q, c) ensures CountsAt(q, q.calls[c]) { CountsAtStep(p, l, c); }
    if NoStart(q) {
      forall c: nat ensures !StartWins(p, c) { WinnersMove(p, l, c); }
      if l.Step? && (l.op.Add? || l.op.Spawn?) { assert StartWins(p, l.c); }
      else if !l.Work? { CountsStand(p, l); }
    }
  }

  // ---- The ledger of tasks

  ghost function Task(w: Worker): multiset<nat>
  {
    if w.Executing? || w.Sending? then multiset{w.t} else multiset{}
  }

  /** The tasks in the hands of workers. */
  ghost function Busy(ws: seq<Worker>): multiset<nat>
  {
    if ws == [] then multiset{} else Busy(ws[..|ws| - 1]) + Task(ws[|ws| - 1])
  }

  lemma Regroup(a: multiset<nat>, b: multiset<nat>, x: multiset<nat>, y: multiset<nat>, last: multiset<nat>)
    requires a + x == b + y
    ensures (a + last) + x == (b + last) + y
    ensures x == y ==> a == b
  {
    assert (a + last) + x == (a + x) + last;
    assert (b + last) + y == (b + y) + last;
    assert a == (a + x) - x && b == (b + y) - y;
  }

  lemma {:induction false} BusyUpdate(ws: seq<Worker>, w: nat, x: Worker)
    requires w < |ws|
    ensures Busy(ws[w := x]) + Task(ws[w]) == Busy(ws) + Task(x)
  {
    var n := |ws| - 1;
    if w == n {
      assert ws[w := x][..n] == ws[..n];
    } else {
      BusyUpdate(ws[..n], w, x);
      assert ws[w := x][..n] == ws[..n][w := x] && ws[w := x][n] == ws[n];
      assert ws[..n][w] == ws[w];
      Regroup(Busy(ws[..n][w := x]), Busy(ws[..n]), Task(ws[w]), Task(x), Task(ws[n]));
    }
  }

  lemma {:induction false} BusyHas(ws: seq<Worker>, w: nat)
    requires w < |ws|
    ensures Task(ws[w]) <= Busy(ws)
  {
    if w == |ws| - 1 {
    } else {
      BusyHas(ws[..|ws| - 1], w);
    }
  }

  lemma {:induction false} BusyBound(ws: seq<Worker>)
    ensures |Busy(ws)| <= |ws|
    ensures (forall w :: 0 <= w < |ws| ==> ws[w].Exited?) ==> Busy(ws) == multiset{}
  {
    if ws == [] {
    } else {
      BusyBound(ws[..|ws| - 1]);
      assert forall w :: 0 <= w < |ws| - 1 ==> ws[..|ws| - 1][w] == ws[w];
    }
  }

  /**
    Tasks leave the queue in the order they entered it, and every dequeued task is finished or in one
    worker's hands.
   */
  ghost predicate Ledger(p: Pool)
  {
    && p.accepted == p.dequeued + p.queue
    && |p.queue| <= p.n
    && multiset(p.dequeued) == multiset(p.finished) + Busy(p.workers)
  }

  lemma HeadMoves(d: seq<nat>, q: seq<nat>)
    requires q != []
    ensures d + q == (d + [q[0]]) + q[1..]
    ensures multiset(d + [q[0]]) == multiset(d) + multiset{q[0]}
  {
    assert q == [q[0]] + q[1..];
  }

  lemma LedgerReceive(p: Pool, w: nat)
    requires WorkEnabled(p, w, Receive) && Ledger(p)
    ensures Ledger(WorkStep(p, w, Receive))
  {
    var x := Executing(p.queue[0]);
    BusyUpdate(p.workers, w, x);
    assert Busy(p.workers[w := x]) == Busy(p.workers) + multiset{p.queue[0]};
    HeadMoves(p.dequeued, p.queue);
  }

  lemma LedgerFinish(p: Pool, w: nat)
    requires WorkEnabled(p, w, Send) && Ledger(p)
    ensures Ledger(WorkStep(p, w, Send))
  {
    var t := p.workers[w].t;
    BusyUpdate(p.workers, w, Idle);
    assert multiset(p.finished + [t]) == multiset(p.finished) + multiset{t};
    assert Busy(p.workers[w := Idle]) + multiset{t} == Busy(p.workers);
  }

  lemma LedgerOtherWork(p: Pool, w: nat, op: WorkOp)
    requires WorkEnabled(p, w, op) && Ledger(p) && !op.Receive? && !op.Send?
    ensures Ledger(WorkStep(p, w, op))
  {
    var x := WorkStep(p, w, op).workers[w];
    BusyUpdate(p.workers, w, x);
    assert WorkStep(p, w, op).workers == p.workers[w := x];
    Regroup(Busy(p.workers[w := x]), Busy(p.workers), Task(p.workers[w]), Task(x), multiset{});
  }

  lemma LedgerSend(p: Pool, c: nat, op: CallOp)
    requires Enabled(p, Step(c, op)) && (op.SelectSend? || op.Unpark?) && Ledger(p)
    ensures Ledger(Next(p, Step(c, op)))
  {
    var t := p.calls[c].t;
    assert p.dequeued + (p.queue + [t]) == (p.dequeued + p.queue) + [t];
  }

  lemma BusyAppend(ws: seq<Worker>)
    ensures Busy(ws + [Idle]) == Busy(ws)
  {
    assert (ws + [Idle])[..|ws|] == ws;
  }

  lemma LedgerSpawn(p: Pool, c: nat)
    requires Enabled(p, Step(c, Spawn)) && Ledger(p)
    ensures Ledger(Next(p, Step(c, Spawn)))
  {
    BusyAppend(p.workers);
  }

  lemma LedgerOtherCall(p: Pool, l: Label)
    requires Enabled(p, l) && Ledger(p) && !l.Work? && !(l.Step? && (l.op.SelectSend? || l.op.Unpark? || l.op.Spawn?))
    ensures Ledger(Next(p, l))
  {
    var q := Next(p, l);
    assert q.workers == p.workers && q.accepted == p.accepted && q.queue == p.queue && q.n == p.n;
    assert q.dequeued == p.dequeued && q.finished == p.finished;
  }

  lemma LedgerStep(p: Pool, l: Label)
    requires Enabled(p, l) && Ledger(p)
    ensures Ledger(Next(p, l))
  {
    if l.Work? {
      assert Next(p, l) == WorkStep(p, l.w, l.wop);
      if l.wop.Receive? { LedgerReceive(p, l.w); }
      else if l.wop.Send? { LedgerFinish(p, l.w); }
      else { LedgerOtherWork(p, l.w, l.wop); }
    } else if l.Step? && (l.op.SelectSend? || l.op.Unpark?) {
      LedgerSend(p, l.c, l.op);
    } else if l.Step? && l.op.Spawn? {
      LedgerSpawn(p, l.c);
    } else {
      LedgerOtherCall(p, l);
    }
  }

  // ---- Closing

  /** Where a Stop past its compare-and-swap stands against the context and the queue. */
  ghost predicate StopOrder(p: Pool, call: Call)
  {
    && (call.Cancelling? ==> !p.closed)
    && (call.Closing? ==> !p.closed && p.cancelled)
    && (call.Waiting? || (call.StopDone? && call.won) ==> p.closed)
    && (call.Parked? ==> !p.cancelled)
    && (call.Dropped? ==> p.cancelled)
  }

  ghost predicate Orderly(p: Pool)
  {
    && (forall c :: c in p.calls ==> StopOrder(p, p.calls[c]))
    && (p.closed ==> p.cancelled && exists c :: StopWins(p, c))
    && (forall w :: 0 <= w < |p.workers| && (p.workers[w].Leaving? || p.workers[w].Exited?) ==>
          p.closed && p.queue == [])
  }

  lemma StopOrderStep(p: Pool, l: Label, c: nat)
    requires Enabled(p, l) && OneWinner(p) && Orderly(p) && c in Next(p, l).calls
    ensures StopOrder(Next(p, l), Next(p, l).calls[c])
  {
    if !Targets(l, c) {
      OthersStand(p, l, c);
      if l.Step? && l.op.Close? {
        assert StopWins(p, l.c) && StopOrder(p, p.calls[l.c]);
        assert !StopWins(p, c);
      }
    } else if FirstStop(p, l, c) {
      assert !p.closed;
    }
  }

  lemma WorkersOrderly(p: Pool, l: Label, w: nat)
    requires Enabled(p, l) && Orderly(p)
    requires w < |Next(p, l).workers| && (Next(p, l).workers[w].Leaving? || Next(p, l).workers[w].Exited?)
    ensures Next(p, l).closed && (Next(p, l).queue == [])
  {
    if l.Step? && l.c in p.calls { assert StopOrder(p, p.calls[l.c]); }
  }

  lemma OrderlyStep(p: Pool, l: Label)
    requires Enabled(p, l) && OneWinner(p) && Orderly(p)
    ensures Orderly(Next(p, l))
  {
    var q := Next(p, l);
    forall c | c in q.calls ensures StopOrder(q, q.calls[c]) { StopOrderStep(p, l, c); }
    if p.closed {
      var c :| StopWins(p, c);
      WinnersMove(p, l, c);
    } else if l.Step? && l.op.Close? {
      assert StopOrder(p, p.calls[l.c]);
      WinnersMove(p, l, l.c);
    }
    forall w | 0 <= w < |q.workers| && (q.workers[w].Leaving? || q.workers[w].Exited?)
      ensures q.closed && q.queue == []
    {
      WorkersOrderly(p, l, w);
    }
  }
}
