/** Request coalescing as a count: how often the database is asked for one key, by all nodes together. */
module Coalescing {
  import opened Keys
  import opened Customers
  import opened Expiry
  import opened CacheProtocol

  /**
    What is counted, for one key. FailedGet is a failed recheck under the mutex; a first look that fails
    costs nothing.
   */
  datatype Event = DatabaseRead | Removal | FailedSet | FailedGet | FailedRead

  ghost predicate OpOn(s: World, l: Label, k: Key)
  {
    l.Step? && l.rid in s.readers && s.readers[l.rid].key == k
  }

  ghost predicate Happens(s: World, l: Label, k: Key, ev: Event)
    requires Sane(s)
  {
    match ev
    case DatabaseRead => OpOn(s, l, k) && (l.op.QueryOk? || l.op.QueryFail?)
    case Removal =>
      k in s.redis &&
      ((l.RedisDrop? && l.k == k) || (l.Delete? && l.wid in s.writers && s.writers[l.wid].key == k))
    case FailedSet => OpOn(s, l, k) && l.op.FillFail?
    case FailedGet => OpOn(s, l, k) && l.op.RecheckFault?
    case FailedRead =>
      OpOn(s, l, k) && (l.op.QueryFail? || (l.op.QueryOk? && Answer(Database(s), k).None?))
  }

  ghost function Count(run: Run, k: Key, ev: Event, i: nat): nat
    requires i <= |run.labels| <= |run.states| && forall j :: 0 <= j < |run.states| ==> Sane(run.states[j])
  {
    if i == 0 then 0
    else Count(run, k, ev, i - 1) + if Happens(run.states[i - 1], run.labels[i - 1], k, ev) then 1 else 0
  }

  /** Every critical section ends within its lease. */
  ghost predicate WithinLease(s: World)
    requires Sane(s)
  {
    forall rid: nat :: rid in s.readers && s.readers[rid].lock.Some? ==>
      Clock(s) < s.readers[rid].lock.value + LEASE
  }

  ghost predicate LeasesSuffice(cfg: Config, run: Run)
  {
    IsRun(cfg, run) && forall i :: 0 <= i < |run.states| ==> WithinLease(run.states[i])
  }

  // ---- Mutual exclusion

  ghost predicate InSection(st: Stage)
  {
    st.Recheck? || st.Query? || st.Fill? || st.Leave?
  }

  /** A request inside its critical section holds the lease of its key. */
  ghost predicate HoldsLease(s: World, rid: nat)
  {
    rid in s.readers ==>
      var r := s.readers[rid];
      && (InSection(r.stage) ==> r.lock.Some?)
      && (r.lock.Some? ==> r.key in s.leases && s.leases[r.key] == Lease(rid, r.lock.value))
      && (r.stage.Locking? || r.stage.TryLocal? || r.stage.TryRedis? || r.stage.Done? ==> r.lock.None?)
  }

  ghost predicate Exclusive(s: World)
  {
    forall rid: nat :: HoldsLease(s, rid)
  }

  lemma OwnStepHoldsLease(cfg: Config, s: World, rid: nat, op: Op)
    requires Sane(s) && Enabled(cfg, s, Step(rid, op)) && HoldsLease(s, rid)
    ensures HoldsLease(Next(cfg, s, Step(rid, op)), rid)
  {
  }

  /** A lease is taken from its holder only by the holder, or by its lapse. */
  lemma LeaseStands(cfg: Config, s: World, l: Label, k: Key)
    requires Sane(s) && Enabled(cfg, s, l) && k in s.leases
    requires !(l.Step? && l.rid == s.leases[k].holder) && l != LeaseLapse(k)
    ensures k in LeasesAfter(cfg, s, l) && LeasesAfter(cfg, s, l)[k] == s.leases[k]
  {
  }

  lemma HoldsLeaseStep(cfg: Config, s: World, l: Label, rid: nat)
    requires Sane(s) && Enabled(cfg, s, l) && Exclusive(s) && WithinLease(s)
    ensures HoldsLease(Next(cfg, s, l), rid)
  {
    assert HoldsLease(s, rid);
    if l.Step? && l.rid == rid {
      OwnStepHoldsLease(cfg, s, rid, l.op);
    } else if rid in s.readers && rid in ReadersAfter(cfg, s, l) && s.readers[rid].lock.Some? {
      LeaseStands(cfg, s, l, s.readers[rid].key);
    }
  }

  lemma {:induction false} ExclusiveAt(cfg: Config, run: Run, i: nat)
    requires LeasesSuffice(cfg, run) && i < |run.states|
    ensures Exclusive(run.states[i])
  {
    if i == 0 {
    } else {
      assert StepAt(cfg, run, i - 1);
      ExclusiveAt(cfg, run, i - 1);
      assert WithinLease(run.states[i - 1]);
      forall rid: nat ensures HoldsLease(run.states[i], rid) {
        HoldsLeaseStep(cfg, run.states[i - 1], run.labels[i - 1], rid);
      }
    }
  }

  /** Any number of nodes and requests: at most one is inside the critical section of a key. */
  lemma MutualExclusion(cfg: Config, run: Run, i: nat, a: nat, b: nat)
    requires LeasesSuffice(cfg, run) && i < |run.states|
    requires a in run.states[i].readers && b in run.states[i].readers
    requires run.states[i].readers[a].key == run.states[i].readers[b].key
    requires run.states[i].readers[a].lock.Some? && run.states[i].readers[b].lock.Some?
    ensures a == b
  {
    ExclusiveAt(cfg, run, i);
    assert HoldsLease(run.states[i], a) && HoldsLease(run.states[i], b);
  }

  // ---- The budget

  /** The stage of the request inside the critical section of k, if there is one. */
  ghost function SectionStage(s: World, k: Key): Stage
  {
    if k in s.leases && s.leases[k].holder in s.readers &&
       s.readers[s.leases[k].holder].key == k && s.readers[s.leases[k].holder].lock.Some?
    then s.readers[s.leases[k].holder].stage
    else TryLocal
  }

  /** The last database read still counts for something: Redis has the key, or is about to be given it. */
  ghost predicate Covered(s: World, k: Key)
  {
    k in s.redis || SectionStage(s, k).Fill?
  }

  /** One read is in store that no empty Redis calls for, paid for by the recheck that failed. */
  ghost predicate Prepaid(s: World, k: Key)
  {
    SectionStage(s, k) == Query(true)
  }

  ghost predicate TrueMiss(s: World, k: Key)
  {
    SectionStage(s, k) == Query(false) ==> k !in s.redis
  }

  ghost function Excuses(run: Run, k: Key, i: nat): nat
    requires i <= |run.labels| <= |run.states| && forall j :: 0 <= j < |run.states| ==> Sane(run.states[j])
  {
    Count(run, k, Removal, i) + Count(run, k, FailedSet, i) + Count(run, k, FailedGet, i) + Count(run, k, FailedRead, i)
  }

  ghost function One(b: bool): nat
  {
    if b then 1 else 0
  }

  /** The stage in the section of k moves only by that request's own steps. */
  lemma SectionStands(cfg: Config, s: World, l: Label, k: Key)
    requires Sane(s) && Enabled(cfg, s, l) && Exclusive(s) && Exclusive(Next(cfg, s, l))
    requires !OpOn(s, l, k)
    ensures SectionStage(Next(cfg, s, l), k) == SectionStage(s, k)
  {
    if k in s.leases {
      assert HoldsLease(s, s.leases[k].holder);
      assert HoldsLease(Next(cfg, s, l), s.leases[k].holder);
    }
  }

  lemma SectionMoves(cfg: Config, s: World, l: Label, k: Key)
    requires Sane(s) && Enabled(cfg, s, l) && Exclusive(s) && Exclusive(Next(cfg, s, l))
    requires OpOn(s, l, k)
    ensures InSection(s.readers[l.rid].stage) ==> SectionStage(s, k) == s.readers[l.rid].stage
    ensures var t := Next(cfg, s, l);
            || SectionStage(t, k) == SectionStage(s, k)
            || SectionStage(t, k) == t.readers[l.rid].stage
            || (l.op.Release? && SectionStage(t, k) == TryLocal)
    ensures InSection(s.readers[l.rid].stage) && !l.op.Release? ==>
              SectionStage(Next(cfg, s, l), k) == Next(cfg, s, l).readers[l.rid].stage
  {
    assert HoldsLease(s, l.rid) && HoldsLease(Next(cfg, s, l), l.rid);
    if k in s.leases {
      assert HoldsLease(s, s.leases[k].holder);
      assert HoldsLease(Next(cfg, s, l), s.leases[k].holder);
    }
  }

  /** One step of the account: a read is paid by cover gained, by the prepayment spent, or by an excuse. */
  ghost predicate Balanced(s: World, l: Label, t: World, k: Key)
    requires Sane(s)
  {
    One(Happens(s, l, k, DatabaseRead)) + One(Prepaid(t, k)) + One(Covered(s, k)) <=
      One(Prepaid(s, k)) + One(Covered(t, k)) +
      One(Happens(s, l, k, Removal)) + One(Happens(s, l, k, FailedSet)) +
      One(Happens(s, l, k, FailedGet)) + One(Happens(s, l, k, FailedRead))
  }

  lemma BudgetElsewhere(cfg: Config, s: World, l: Label, k: Key)
    requires Sane(s) && Enabled(cfg, s, l) && Exclusive(s) && Exclusive(Next(cfg, s, l)) && TrueMiss(s, k)
    requires !OpOn(s, l, k)
    ensures TrueMiss(Next(cfg, s, l), k) && Balanced(s, l, Next(cfg, s, l), k)
  {
    SectionStands(cfg, s, l, k);
    assert k in RedisAfter(cfg, s, l) ==> k in s.redis;
  }

  lemma BudgetOutside(cfg: Config, s: World, l: Label, k: Key)
    requires Sane(s) && Enabled(cfg, s, l) && Exclusive(s) && Exclusive(Next(cfg, s, l)) && TrueMiss(s, k)
    requires OpOn(s, l, k) && !InSection(s.readers[l.rid].stage)
    ensures TrueMiss(Next(cfg, s, l), k) && Balanced(s, l, Next(cfg, s, l), k)
  {
    SectionMoves(cfg, s, l, k);
    var r, t := s.readers[l.rid], Next(cfg, s, l);
    assert t.readers[l.rid] == ReaderAfter(cfg, s, r, l.op);
    assert t.redis == s.redis;
  }

  lemma BudgetInside(cfg: Config, s: World, l: Label, k: Key)
    requires Sane(s) && Enabled(cfg, s, l) && Exclusive(s) && Exclusive(Next(cfg, s, l)) && TrueMiss(s, k)
    requires OpOn(s, l, k) && InSection(s.readers[l.rid].stage)
    ensures TrueMiss(Next(cfg, s, l), k) && Balanced(s, l, Next(cfg, s, l), k)
  {
    SectionMoves(cfg, s, l, k);
    assert Next(cfg, s, l).readers[l.rid] == ReaderAfter(cfg, s, s.readers[l.rid], l.op);
  }

  lemma BudgetHere(cfg: Config, s: World, l: Label, k: Key)
    requires Sane(s) && Enabled(cfg, s, l) && Exclusive(s) && Exclusive(Next(cfg, s, l)) && TrueMiss(s, k)
    requires OpOn(s, l, k)
    ensures TrueMiss(Next(cfg, s, l), k) && Balanced(s, l, Next(cfg, s, l), k)
  {
    if InSection(s.readers[l.rid].stage) { BudgetInside(cfg, s, l, k); } else { BudgetOutside(cfg, s, l, k); }
  }

  lemma BalancedAt(cfg: Config, run: Run, k: Key, i: nat)
    requires LeasesSuffice(cfg, run) && i < |run.labels| && TrueMiss(run.states[i], k)
    ensures TrueMiss(run.states[i + 1], k) && Balanced(run.states[i], run.labels[i], run.states[i + 1], k)
  {
    assert StepAt(cfg, run, i);
    ExclusiveAt(cfg, run, i);
    ExclusiveAt(cfg, run, i + 1);
    if OpOn(run.states[i], run.labels[i], k) {
      BudgetHere(cfg, run.states[i], run.labels[i], k);
    } else {
      BudgetElsewhere(cfg, run.states[i], run.labels[i], k);
    }
  }

  lemma {:induction false} BudgetAt(cfg: Config, run: Run, k: Key, i: nat)
    requires LeasesSuffice(cfg, run) && i < |run.states|
    ensures TrueMiss(run.states[i], k)
    ensures Count(run, k, DatabaseRead, i) + One(Prepaid(run.states[i], k)) <=
            Excuses(run, k, i) + One(Covered(run.states[i], k))
  {
    if i == 0 {
    } else {
      BudgetAt(cfg, run, k, i - 1);
      BalancedAt(cfg, run, k, i - 1);
      forall ev: Event
        ensures Count(run, k, ev, i) ==
                Count(run, k, ev, i - 1) + One(Happens(run.states[i - 1], run.labels[i - 1], k, ev))
      {
      }
    }
  }

  /**
    Coalescing: when every critical section ends within its lease, the database is read for a key, by
    any number of nodes and concurrent requests, at most once, plus once for each removal of the Redis
    entry, failed Redis Set, failed recheck and read that came back with an error.
   */
  lemma DatabaseReadsAreCoalesced(cfg: Config, run: Run, k: Key)
    requires LeasesSuffice(cfg, run)
    ensures var n := |run.labels|;
            Count(run, k, DatabaseRead, n) <=
            1 + Count(run, k, Removal, n) + Count(run, k, FailedSet, n) +
            Count(run, k, FailedGet, n) + Count(run, k, FailedRead, n)
  {
    BudgetAt(cfg, run, k, |run.labels|);
  }
}
