/**
  The worker pool as a labelled state machine: any number of concurrent Start, Stop and Do calls and the
  workers they spawn, interleaved at every compare-and-swap, wait-group, channel and context operation.
 */
module PoolProtocol {

  /** A worker between two operations of its range loop. */
  datatype Worker = Idle | Executing(t: nat) | Sending(t: nat) | Leaving | Exited

  /** A call of Start, Stop or Do, and the operation it is about to make, or how it returned. */
  datatype Call =
    | StartCas | Adding | Spawning(i: nat) | StartDone(won: bool)
    | StopCas1 | StopCas2 | Cancelling | Closing | Waiting | StopDone(won: bool)
    | Selecting(t: nat) | Parked(t: nat) | Accepted(t: nat) | Dropped(t: nat)

  /**
    life is Go's state field: 0 not started, 1 started, 2 stopped. accepted, dequeued and finished are the
    tasks so far sent to the queue, received from it, and whose result was sent; full holds the tasks whose
    capacity-1 result channel is occupied. crashed: a goroutine panicked on the closed queue.
   */
  datatype Pool = Pool(n: nat, life: nat, cancelled: bool, closed: bool, crashed: bool,
                       queue: seq<nat>, wg: int, workers: seq<Worker>, calls: map<nat, Call>,
                       accepted: seq<nat>, dequeued: seq<nat>, finished: seq<nat>, full: set<nat>)

  /** One operation of a call, in pkg/workerpool/pool.go. */
  datatype CallOp =
    | StartTry | Add | Spawn                               // 101, 104, 105-107
    | StopTry1 | StopTry2 | Cancel | Close | WaitOver      // 120 twice, 122, 125, 126
    | SelectSend | SelectDone | Park | Unpark              // 138-141

  /** One operation of a worker: its range loop, Execute, the send of the result, wg.Done. */
  datatype WorkOp = Receive | Execute | Send | Leave | Exit // 112, 43-45, 47, 112, 115

  datatype Label =
    | CallStart(c: nat) | CallStop(c: nat) | CallDo(c: nat, t: nat)
    | Step(c: nat, op: CallOp) | Work(w: nat, wop: WorkOp)
    | ReadResult(t: nat) | ParentCancel

  /** Option.normalize: a count that is not positive becomes the number of CPUs. */
  function Normalize(numberWorker: int, numCPU: nat): (n: nat)
    requires numCPU >= 1
    ensures n >= 1 && (numberWorker > 0 ==> n == numberWorker) && (numberWorker <= 0 ==> n == numCPU)
  {
    if numberWorker <= 0 then numCPU else numberWorker
  }

  ghost function NewPool(n: nat): Pool
  {
    Pool(n, 0, false, false, false, [], 0, [], map[], [], [], [], {})
  }

  /** A select may choose any ready case: sending is ready when there is room, and, to its grief, once closed. */
  ghost predicate CallEnabled(p: Pool, call: Call, op: CallOp)
  {
    match op
    case StartTry => call.StartCas?
    case Add => call.Adding?
    case Spawn => call.Spawning? && call.i < p.n
    case StopTry1 => call.StopCas1?
    case StopTry2 => call.StopCas2?
    case Cancel => call.Cancelling?
    case Close => call.Closing?
    case WaitOver => call.Waiting? && p.wg == 0
    case SelectSend => call.Selecting? && (p.closed || |p.queue| < p.n)
    case SelectDone => call.Selecting? && p.cancelled
    case Park => call.Selecting? && !p.cancelled && !p.closed && |p.queue| >= p.n
    case Unpark => call.Parked? && !p.closed && |p.queue| < p.n
  }

  ghost predicate WorkEnabled(p: Pool, w: nat, op: WorkOp)
  {
    w < |p.workers| &&
    match op
    case Receive => p.workers[w].Idle? && p.queue != []
    case Execute => p.workers[w].Executing?
    case Send => p.workers[w].Sending? && p.workers[w].t !in p.full
    case Leave => p.workers[w].Idle? && p.closed && p.queue == []
    case Exit => p.workers[w].Leaving?
  }

  ghost predicate Enabled(p: Pool, l: Label)
  {
    !p.crashed &&
    match l
    case CallStart(c) => c !in p.calls
    case CallStop(c) => c !in p.calls
    case CallDo(c, _) => c !in p.calls
    case Step(c, op) => c in p.calls && CallEnabled(p, p.calls[c], op)
    case Work(w, op) => WorkEnabled(p, w, op)
    case ReadResult(t) => t in p.full
    case ParentCancel => true
  }

  /** Cancelling the context wakes every parked select with its Done case. */
  ghost function Released(calls: map<nat, Call>): map<nat, Call>
  {
    map c | c in calls :: if calls[c].Parked? then Dropped(calls[c].t) else calls[c]
  }

  ghost function CallAfter(p: Pool, call: Call, op: CallOp): Call
    requires CallEnabled(p, call, op)
  {
    match op
    case StartTry => if p.life == 0 then Adding else StartDone(false)
    case Add => if p.n == 0 then StartDone(true) else Spawning(0)
    case Spawn => if call.i + 1 == p.n then StartDone(true) else Spawning(call.i + 1)
    case StopTry1 => if p.life == 1 then Cancelling else StopCas2
    case StopTry2 => if p.life == 0 then Cancelling else StopDone(false)
    case Cancel => Closing
    case Close => Waiting
    case WaitOver => StopDone(true)
    case SelectSend => Accepted(call.t)
    case SelectDone => Dropped(call.t)
    case Park => Parked(call.t)
    case Unpark => Accepted(call.t)
  }

  ghost function WorkStep(p: Pool, w: nat, op: WorkOp): Pool
    requires WorkEnabled(p, w, op)
  {
    match op
    case Receive =>
      p.(workers := p.workers[w := Executing(p.queue[0])],
         queue := p.queue[1..], dequeued := p.dequeued + [p.queue[0]])
    case Execute => p.(workers := p.workers[w := Sending(p.workers[w].t)])
    case Send =>
      p.(workers := p.workers[w := Idle],
         finished := p.finished + [p.workers[w].t], full := p.full + {p.workers[w].t})
    case Leave => p.(workers := p.workers[w := Leaving])
    case Exit => p.(workers := p.workers[w := Exited], wg := p.wg - 1)
  }

  // ---- What the other steps do, component by component

  ghost function LifeAfter(p: Pool, l: Label): nat
  {
    match l
    case Step(_, StartTry) => if p.life == 0 then 1 else p.life
    case Step(_, StopTry1) => if p.life == 1 then 2 else p.life
    case Step(_, StopTry2) => if p.life == 0 then 2 else p.life
    case _ => p.life
  }

  ghost predicate Cancels(l: Label)
  {
    l.ParentCancel? || (l.Step? && l.op.Cancel?)
  }

  ghost predicate Closes(l: Label)
  {
    l.Step? && l.op.Close?
  }

  /** The task a select puts on the queue with this step, at once or after having been parked. */
  ghost predicate Sends(p: Pool, l: Label)
  {
    l.Step? && ((l.op.SelectSend? && !p.closed) || l.op.Unpark?)
  }

  /** Sending on the closed queue panics, and so does closing it over a parked sender. */
  ghost predicate Panics(p: Pool, l: Label)
  {
    || (l.Step? && l.op.SelectSend? && p.closed)
    || (Closes(l) && (p.closed || exists d :: d in p.calls && p.calls[d].Parked?))
  }

  ghost function CallsAfter(p: Pool, l: Label): map<nat, Call>
    requires Enabled(p, l)
  {
    match l
    case CallStart(c) => p.calls[c := StartCas]
    case CallStop(c) => p.calls[c := StopCas1]
    case CallDo(c, t) => p.calls[c := Selecting(t)]
    case Step(c, op) =>
      if op.Cancel? then Released(p.calls[c := CallAfter(p, p.calls[c], op)])
      else if Panics(p, l) then p.calls
      else p.calls[c := CallAfter(p, p.calls[c], op)]
    case ParentCancel => Released(p.calls)
    case _ => p.calls
  }

  ghost function Queued(p: Pool, l: Label, before: seq<nat>): seq<nat>
    requires Enabled(p, l)
  {
    if Sends(p, l) then before + [p.calls[l.c].t] else before
  }

  ghost function Next(p: Pool, l: Label): Pool
    requires Enabled(p, l)
  {
    if l.Work? then WorkStep(p, l.w, l.wop)
    else
      Pool(p.n, LifeAfter(p, l), p.cancelled || Cancels(l), p.closed || Closes(l), Panics(p, l),
           Queued(p, l, p.queue),
           if l.Step? && l.op.Add? then p.wg + p.n else p.wg,
           if l.Step? && l.op.Spawn? then p.workers + [Idle] else p.workers,
           CallsAfter(p, l),
           Queued(p, l, p.accepted), p.dequeued, p.finished,
           if l.ReadResult? then p.full - {l.t} else p.full)
  }

  datatype Run = Run(states: seq<Pool>, labels: seq<Label>)

  ghost predicate StepAt(run: Run, i: nat)
    requires i < |run.labels| && |run.states| == |run.labels| + 1
  {
    Enabled(run.states[i], run.labels[i]) && run.states[i + 1] == Next(run.states[i], run.labels[i])
  }

  ghost predicate IsRun(run: Run)
  {
    && |run.states| == |run.labels| + 1
    && run.states[0].n >= 1 && run.states[0] == NewPool(run.states[0].n)
    && forall i :: 0 <= i < |run.labels| ==> StepAt(run, i)
  }
}
