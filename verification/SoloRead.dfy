/** An uninterrupted, faultless read in the interleaved machine, from wherever it stands, follows the read plan. */
module SoloRead {
  import opened Base
  import opened Keys
  import opened Customers
  import opened Expiry
  import opened CacheProtocol

  /** The call succeeds, and misses only what is not there. */
  ghost predicate Faultless(cfg: Config, s: World, r: Reader, op: Op)
    requires Sane(s)
  {
    OpEnabled(cfg, s, r, op) &&
    match op
    case LocalMiss => (r.node, r.key) !in s.local
    case RedisMiss => r.key !in s.redis
    case AcquireFail => false
    case RecheckFault => false
    case QueryFail => false
    case FillFail => false
    case CopyFail => false
    case Release(ok) => ok
    case _ => true
  }

  /** The parts of the state that a read does not own are as they were. */
  ghost predicate Elsewhere(s: World, t: World)
  {
    && Sane(s) && Sane(t) && Database(t) == Database(s) && Clock(t) == Clock(s)
    && t.writers == s.writers && t.signups == s.signups && t.tokens == s.tokens
  }

  ghost function EntryOf(s: World, k: Key): Option<Value>
  {
    if k in s.redis then Some(s.redis[k].e.value) else None
  }

  ghost function LocalEntryOf(s: World, n: nat, k: Key): Option<Value>
  {
    if (n, k) in s.local then Some(s.local[(n, k)].e.value) else None
  }

  /** Redis is as before but for an entry of k with this value and an expiry that getRandomExpiration may give. */
  ghost predicate RedisPut(cfg: Config, s: World, t: World, k: Key, v: Value)
    requires Sane(s)
  {
    && k in t.redis && t.redis == s.redis[k := t.redis[k]] && t.redis[k].e.value == v
    && exists j: nat :: j < JITTER && t.redis[k].expires == ExpiresAt(cfg, Clock(s), j)
  }

  ghost predicate LocalPut(s: World, t: World, n: nat, k: Key, v: Value)
  {
    (n, k) in t.local && t.local == s.local[(n, k) := t.local[(n, k)]] && t.local[(n, k)].e.value == v
  }

  ghost function ResultOf(out: Outcome): Option<Value>
  {
    if out.Got? then Some(out.e.value) else None
  }

  /** A run of one request's own faultless steps with no other step between them. */
  datatype Alone = Alone(states: seq<World>, ops: seq<Op>)

  ghost predicate StepAlone(cfg: Config, run: Alone, rid: nat, i: nat)
    requires i < |run.ops| && |run.states| == |run.ops| + 1
  {
    var s := run.states[i];
    Sane(s) && rid in s.readers && Faultless(cfg, s, s.readers[rid], run.ops[i]) &&
    run.states[i + 1] == Next(cfg, s, Step(rid, run.ops[i]))
  }

  ghost predicate Solo(cfg: Config, run: Alone, rid: nat)
  {
    && |run.states| == |run.ops| + 1
    && forall i :: 0 <= i < |run.ops| ==> StepAlone(cfg, run, rid, i)
  }

  /** Finished: the last state has the request done. */
  ghost predicate Finished(run: Alone, rid: nat)
    requires run.states != []
  {
    var t := run.states[|run.states| - 1];
    Sane(t) && rid in t.readers && t.readers[rid].stage.Done?
  }

  ghost function LeasesMoved(s: World, rid: nat, k: Key, op: Op): map<Key, Lease>
    requires Sane(s)
  {
    if op.Acquire? then s.leases[k := Lease(rid, Clock(s))]
    else if op.Release? && k in s.leases && s.leases[k].holder == rid then s.leases - {k}
    else s.leases
  }

  /** What one such step does to the request and to what it touches. */
  ghost predicate Moved(cfg: Config, s: World, u: World, rid: nat, op: Op)
  {
    && Elsewhere(s, u) && rid in s.readers && rid in u.readers
    && var r := s.readers[rid];
    && Faultless(cfg, s, r, op) && u.readers[rid] == ReaderAfter(cfg, s, r, op)
    && (if op.FillOk? then RedisPut(cfg, s, u, r.key, r.stage.e.value) else u.redis == s.redis)
    && (if op.CopyOk? then LocalPut(s, u, r.node, r.key, r.stage.e.value) else u.local == s.local)
    && u.leases == LeasesMoved(s, rid, r.key, op)
  }

  lemma Moves(cfg: Config, run: Alone, rid: nat, i: nat)
    requires Solo(cfg, run, rid) && i < |run.ops|
    ensures Moved(cfg, run.states[i], run.states[i + 1], rid, run.ops[i])
  {
    assert StepAlone(cfg, run, rid, i);
  }

  /** A request stands in the order of its calls: it has the mutex from Lock on, unless it never came to that. */
  ghost predicate Shaped(r: Reader)
  {
    match r.stage
    case TryLocal => r.lock.None?
    case TryRedis => r.lock.None?
    case Locking => r.lock.None?
    case Recheck => r.lock.Some?
    case Query(_) => r.lock.Some?
    case Fill(_) => r.lock.Some?
    case Copy(_, _) => true
    case Leave(_) => r.lock.Some?
    case Done(_) => r.lock.None?
  }

  lemma {:induction false} ShapedAt(cfg: Config, run: Run, i: nat, rid: nat)
    requires IsRun(cfg, run) && i < |run.states| && rid in run.states[i].readers
    ensures Shaped(run.states[i].readers[rid])
  {
    if i == 0 {
    } else {
      assert StepAt(cfg, run, i - 1);
      if rid in run.states[i - 1].readers { ShapedAt(cfg, run, i - 1, rid); }
    }
  }

  // ---- What such a read comes to

  /** What is left to do of a read that stands here: the plan of a read that had found nothing so far. */
  ghost function RestPlan(st: Stage, local: Option<Value>, redis: Option<Value>, answer: Option<Value>): ReadEffect
  {
    match st
    case TryLocal => ReadPlan(local, redis, answer)
    case TryRedis => ReadPlan(None, redis, answer)
    case Locking => ReadPlan(None, redis, answer)
    case Recheck => ReadPlan(None, redis, answer)
    case Query(_) => ReadPlan(None, None, answer)
    case Fill(e) => ReadEffect(Some(e.value), None, Some(e.value))
    case Copy(e, _) => ReadEffect(Some(e.value), Some(e.value), None)
    case Leave(out) => ReadEffect(ResultOf(out), None, None)
    case Done(out) => ReadEffect(ResultOf(out), None, None)
  }

  ghost function Rest(s: World, r: Reader): ReadEffect
    requires Sane(s)
  {
    RestPlan(r.stage, LocalEntryOf(s, r.node, r.key), EntryOf(s, r.key), Answer(Database(s), r.key))
  }

  /** The mutexes once this request has let go of its own. */
  ghost function Freed(s: World, rid: nat): map<Key, Lease>
    requires rid in s.readers
  {
    var r := s.readers[rid];
    if r.lock.Some? && r.key in s.leases && s.leases[r.key].holder == rid then s.leases - {r.key} else s.leases
  }

  ghost predicate HasFailed(st: Stage)
  {
    (st.Leave? && st.out.Failed?) || (st.Done? && st.out.Failed?)
  }

  /** From s to t the request has done what the plan says, let go of its mutex, and failed only if it had before. */
  ghost predicate Followed(cfg: Config, s: World, t: World, rid: nat, plan: ReadEffect)
    requires Sane(s) && rid in s.readers
  {
    var r := s.readers[rid];
    && Elsewhere(s, t) && t.leases == Freed(s, rid)
    && rid in t.readers && t.readers[rid].stage.Done?
    && ResultOf(t.readers[rid].stage.out) == plan.result
    && (t.readers[rid].stage.out.Failed? <==> HasFailed(r.stage))
    && (if plan.toLocal.Some? then LocalPut(s, t, r.node, r.key, plan.toLocal.value) else t.local == s.local)
    && (if plan.toRedis.Some? then RedisPut(cfg, s, t, r.key, plan.toRedis.value) else t.redis == s.redis)
  }

  lemma FreedStays(cfg: Config, s: World, u: World, rid: nat, op: Op)
    requires Sane(s) && rid in s.readers && Shaped(s.readers[rid]) && Moved(cfg, s, u, rid, op)
    ensures Freed(u, rid) == Freed(s, rid) && Shaped(u.readers[rid])
  {
  }

  /** A call that stores nothing leaves the rest of the plan as it was. */
  lemma RestStays(cfg: Config, s: World, u: World, rid: nat, op: Op)
    requires Sane(s) && rid in s.readers && Moved(cfg, s, u, rid, op) && !op.FillOk? && !op.CopyOk?
    ensures Rest(u, u.readers[rid]) == Rest(s, s.readers[rid])
    ensures HasFailed(u.readers[rid].stage) <==> HasFailed(s.readers[rid].stage)
  {
  }

  lemma StoreSteps(cfg: Config, s: World, u: World, t: World, rid: nat, op: Op)
    requires Sane(s) && rid in s.readers && Shaped(s.readers[rid]) && Moved(cfg, s, u, rid, op)
    requires op.FillOk? || op.CopyOk?
    requires Followed(cfg, u, t, rid, Rest(u, u.readers[rid]))
    ensures Followed(cfg, s, t, rid, Rest(s, s.readers[rid]))
  {
    FreedStays(cfg, s, u, rid, op);
    assert u.readers[rid].stage == Exit(s.readers[rid], Got(s.readers[rid].stage.e));
    assert Rest(u, u.readers[rid]) == ReadEffect(Some(s.readers[rid].stage.e.value), None, None);
    assert t.redis == u.redis && t.local == u.local;
  }

  lemma StepsOn(cfg: Config, s: World, u: World, t: World, rid: nat, op: Op)
    requires Sane(s) && rid in s.readers && Shaped(s.readers[rid]) && Moved(cfg, s, u, rid, op)
    requires Followed(cfg, u, t, rid, Rest(u, u.readers[rid]))
    ensures Followed(cfg, s, t, rid, Rest(s, s.readers[rid]))
  {
    if op.FillOk? || op.CopyOk? {
      StoreSteps(cfg, s, u, t, rid, op);
    } else {
      FreedStays(cfg, s, u, rid, op);
      RestStays(cfg, s, u, rid, op);
      assert u.redis == s.redis && u.local == s.local;
      assert u.readers[rid].key == s.readers[rid].key && u.readers[rid].node == s.readers[rid].node;
    }
  }

  lemma {:induction false} RestFollowsPlan(cfg: Config, run: Alone, rid: nat, i: nat)
    requires Solo(cfg, run, rid) && Finished(run, rid) && i < |run.states|
    requires Sane(run.states[i]) && rid in run.states[i].readers && Shaped(run.states[i].readers[rid])
    ensures Followed(cfg, run.states[i], run.states[|run.ops|], rid, Rest(run.states[i], run.states[i].readers[rid]))
    decreases |run.states| - i
  {
    if i == |run.ops| {
    } else {
      Moves(cfg, run, rid, i);
      RestFollowsPlan(cfg, run, rid, i + 1);
      StepsOn(cfg, run.states[i], run.states[i + 1], run.states[|run.ops|], rid, run.ops[i]);
    }
  }

  /**
    Every faultless read that runs to its end without another step in between, from wherever it stood, returns
    the value, and leaves in the two caches exactly the entries, that the plan names for what it found; its
    mutex is free again and nothing else has moved. For a read that stood at its start this is ReadPlan, which
    the sequential proxies are proved against.
   */
  lemma UninterruptedReadFollowsPlan(cfg: Config, run: Alone, rid: nat)
    requires Solo(cfg, run, rid) && Finished(run, rid)
    requires var s := run.states[0]; Sane(s) && rid in s.readers && Shaped(s.readers[rid])
    ensures var s := run.states[0]; Followed(cfg, s, run.states[|run.ops|], rid, Rest(s, s.readers[rid]))
    ensures var s := run.states[0]; var r := s.readers[rid];
            r.stage.TryLocal? ==>
              Rest(s, r) == ReadPlan(LocalEntryOf(s, r.node, r.key), EntryOf(s, r.key), Answer(Database(s), r.key))
  {
    RestFollowsPlan(cfg, run, rid, 0);
  }

  // ---- When such a read can run to its end

  /** Redis can answer: it has a live entry, or none. */
  ghost predicate RedisAnswers(s: World, k: Key)
    requires Sane(s)
  {
    LiveInRedis(s, k) || k !in s.redis
  }

  /** A live local entry; or none, and a live Redis entry; or neither, and the mutex is free. Later on, less will do. */
  ghost predicate CanFinish(cfg: Config, s: World, r: Reader)
    requires Sane(s)
  {
    match r.stage
    case TryLocal =>
      || LiveInLocal(cfg, s, r.node, r.key)
      || ((r.node, r.key) !in s.local && (LiveInRedis(s, r.key) || (r.key !in s.redis && r.key !in s.leases)))
    case TryRedis => LiveInRedis(s, r.key) || (r.key !in s.redis && r.key !in s.leases)
    case Locking => r.key !in s.leases && RedisAnswers(s, r.key)
    case Recheck => RedisAnswers(s, r.key)
    case _ => true
  }

  /** The next call of a read, answered without a fault. */
  ghost function FaultlessOp(cfg: Config, s: World, r: Reader): Op
    requires Sane(s) && !r.stage.Done?
  {
    match r.stage
    case TryLocal => if LiveInLocal(cfg, s, r.node, r.key) then LocalHit else LocalMiss
    case TryRedis => if LiveInRedis(s, r.key) then RedisHit else RedisMiss
    case Locking => Acquire
    case Recheck => if LiveInRedis(s, r.key) then RecheckHit else RecheckMiss
    case Query(_) => QueryOk
    case Fill(_) => FillOk(0)
    case Copy(_, _) => CopyOk
    case Leave(_) => Release(true)
  }

  function Rank(st: Stage): nat
  {
    match st
    case TryLocal => 7
    case TryRedis => 6
    case Locking => 5
    case Recheck => 4
    case Query(_) => 3
    case Fill(_) => 2
    case Copy(_, _) => 2
    case Leave(_) => 1
    case Done(_) => 0
  }

  lemma OneMore(cfg: Config, s: World, u: World, rid: nat, op: Op)
    requires Sane(s) && rid in s.readers && CanFinish(cfg, s, s.readers[rid]) && !s.readers[rid].stage.Done?
    requires op == FaultlessOp(cfg, s, s.readers[rid])
    ensures Faultless(cfg, s, s.readers[rid], op)
    ensures Moved(cfg, s, u, rid, op) ==>
              CanFinish(cfg, u, u.readers[rid]) && Rank(u.readers[rid].stage) < Rank(s.readers[rid].stage)
  {
  }

  /** One more faultless step of a run alone. */
  lemma Onward(cfg: Config, run: Alone, rid: nat, op: Op) returns (r: Alone)
    requires Solo(cfg, run, rid)
    requires var t := run.states[|run.ops|]; Sane(t) && rid in t.readers && Faultless(cfg, t, t.readers[rid], op)
    ensures Solo(cfg, r, rid) && r.states[0] == run.states[0] && |r.ops| == |run.ops| + 1
    ensures Moved(cfg, run.states[|run.ops|], r.states[|r.ops|], rid, op)
  {
    var t := run.states[|run.ops|];
    r := Alone(run.states + [Next(cfg, t, Step(rid, op))], run.ops + [op]);
    forall i | 0 <= i < |r.ops| ensures StepAlone(cfg, r, rid, i) {
      if i < |run.ops| { assert StepAlone(cfg, run, rid, i); }
    }
    Moves(cfg, r, rid, |run.ops|);
  }

  ghost predicate FinishesAlone(cfg: Config, s: World, rid: nat)
  {
    exists run: Alone :: Solo(cfg, run, rid) && run.states[0] == s && Finished(run, rid)
  }

  lemma {:induction false} RunsOn(cfg: Config, run: Alone, rid: nat)
    requires Solo(cfg, run, rid)
    requires var t := run.states[|run.ops|]; Sane(t) && rid in t.readers && CanFinish(cfg, t, t.readers[rid])
    ensures FinishesAlone(cfg, run.states[0], rid)
    decreases Rank(run.states[|run.ops|].readers[rid].stage)
  {
    var t := run.states[|run.ops|];
    if t.readers[rid].stage.Done? {
      assert Finished(run, rid);
    } else {
      var op := FaultlessOp(cfg, t, t.readers[rid]);
      OneMore(cfg, t, t, rid, op);
      var r := Onward(cfg, run, rid, op);
      OneMore(cfg, t, r.states[|r.ops|], rid, op);
      RunsOn(cfg, r, rid);
    }
  }

  lemma CouldBefore(cfg: Config, s: World, u: World, rid: nat, op: Op)
    requires Sane(s) && rid in s.readers && Moved(cfg, s, u, rid, op) && CanFinish(cfg, u, u.readers[rid])
    ensures CanFinish(cfg, s, s.readers[rid])
  {
  }

  lemma {:induction false} FinishedCould(cfg: Config, run: Alone, rid: nat, i: nat)
    requires Solo(cfg, run, rid) && Finished(run, rid) && i < |run.states|
    requires Sane(run.states[i]) && rid in run.states[i].readers
    ensures CanFinish(cfg, run.states[i], run.states[i].readers[rid])
    decreases |run.states| - i
  {
    if i == |run.ops| {
    } else {
      Moves(cfg, run, rid, i);
      FinishedCould(cfg, run, rid, i + 1);
      CouldBefore(cfg, run.states[i], run.states[i + 1], rid, run.ops[i]);
    }
  }

  /** A faultless read can run to its end uninterrupted, from wherever it stands, exactly when CanFinish holds there. */
  lemma ReadGoesThroughExactly(cfg: Config, s: World, rid: nat)
    requires Sane(s) && rid in s.readers
    ensures FinishesAlone(cfg, s, rid) <==> CanFinish(cfg, s, s.readers[rid])
  {
    if CanFinish(cfg, s, s.readers[rid]) {
      RunsOn(cfg, Alone([s], []), rid);
    }
    if FinishesAlone(cfg, s, rid) {
      var run: Alone :| Solo(cfg, run, rid) && run.states[0] == s && Finished(run, rid);
      FinishedCould(cfg, run, rid, 0);
    }
  }

  // ---- And when a call fails

  /** Where the program goes on when the call it is about to make fails. */
  function AfterFault(r: Reader): Stage
    requires !r.stage.Done?
  {
    match r.stage
    case TryLocal => TryRedis
    case TryRedis => Locking
    case Locking => Done(Failed)
    case Recheck => Query(true)
    case Query(_) => if r.lock.Some? then Leave(Failed) else Done(Failed)
    case Fill(e) => if r.lock.Some? then Leave(Got(e)) else Done(Got(e))
    case Copy(e, _) => if r.lock.Some? then Leave(Got(e)) else Done(Got(e))
    case Leave(out) => Done(out)
  }

  /** Any call may fail; the request then goes on as the program does, and neither cache, nor any mutex, has moved. */
  lemma AnyCallMayFail(cfg: Config, s: World, rid: nat) returns (op: Op)
    requires Sane(s) && rid in s.readers && !s.readers[rid].stage.Done?
    ensures Enabled(cfg, s, Step(rid, op))
    ensures var t := Next(cfg, s, Step(rid, op));
            && t.readers[rid].stage == AfterFault(s.readers[rid])
            && t.redis == s.redis && t.local == s.local && t.leases == s.leases
  {
    match s.readers[rid].stage
    case TryLocal => op := LocalMiss;
    case TryRedis => op := RedisMiss;
    case Locking => op := AcquireFail;
    case Recheck => op := RecheckFault;
    case Query(_) => op := QueryFail;
    case Fill(_) => op := FillFail;
    case Copy(_, _) => op := CopyFail;
    case Leave(_) => op := Release(false);
  }

  /** And a call that does not succeed has no other outcome. */
  lemma NoOtherOutcome(cfg: Config, s: World, r: Reader, op: Op)
    requires Sane(s) && OpEnabled(cfg, s, r, op)
    ensures Faultless(cfg, s, r, op) || ReaderAfter(cfg, s, r, op).stage == AfterFault(r)
    ensures Rank(ReaderAfter(cfg, s, r, op).stage) < Rank(r.stage)
    ensures var q := ReaderAfter(cfg, s, r, op); q.key == r.key && q.node == r.node && q.purpose == r.purpose
  {
  }
}
